/** What the JSON decoder promises: the canonical text of every value it can produce reads back as
    that value, and the grammar errors of section 6 of RFC 7159 are refused. */
module JsonLemmas {
  import opened Wrappers
  import opened Text
  import opened JsonValue
  import opened JsonSpec

  /** What may follow a value in a document: nothing, whitespace or the next structural character. */
  predicate Delimited(rest: string) {
    rest == [] || rest[0] == ',' || rest[0] == ']' || rest[0] == '}' || IsWs(rest[0])
  }

  predicate AllWs(w: string) {
    forall k :: 0 <= k < |w| ==> IsWs(w[k])
  }

  /** A run of digits followed by a non-digit is read whole. */
  lemma {:induction false} DigitRunOfDigits(d: string, r: string)
    requires AllDigits(d)
    requires r == [] || !IsDigit(r[0])
    ensures DigitRun(d + r) == |d|
    ensures (d + r)[..|d|] == d && (d + r)[|d|..] == r
  {
    if d != [] {
      assert (d + r)[1..] == d[1..] + r;
      DigitRunOfDigits(d[1..], r);
    }
  }

  /** The integral part of a number literal written by `Decimal` is that text. */
  lemma IntegralOfDecimal(n: nat, r: string)
    requires r == [] || !IsDigit(r[0])
    ensures IntegralPart(Decimal(n) + r) == Success(Parsed(Decimal(n), r))
  {
    var d := Decimal(n);
    DecimalDigits(n);
    DigitRunOfDigits(d, r);
    if d[0] == '0' {
      assert d == "0";
    }
  }

  /** Every number the decoder can produce reads back from its canonical text. */
  lemma NumberRoundTrip(n: Number, big: bool, rest: string)
    requires CanonicalNumber(n, big) && Delimited(rest)
    ensures NumberAt(SerializeNumber(n) + rest, big) == Success(Parsed(n, rest))
  {
    match n
    case IntNum(i) =>
      IntegerRoundTrip(i, big, rest);
    case BigIntString(d) =>
      var i :| !InInt32(i) && d == IntToString(i);
      IntegerRoundTrip(i, big, rest);
    case FloatNum(m, e) =>
      FloatRoundTrip(m, e, big, rest);
  }

  /** A signed decimal text is its sign followed by the digits of the magnitude. */
  lemma SignSplit(i: int, c: string)
    ensures var s := IntToString(i) + c;
      (s != [] && s[0] == '-') == (i < 0) &&
      (if i < 0 then s[1..] else s) == Decimal(if i < 0 then -i else i) + c
  {
    var s := IntToString(i) + c;
    if i < 0 {
      assert s == "-" + (Decimal(-i) + c);
    }
  }

  /** An integer literal reads back as the integer, or as its own text under BIGINT_AS_STRING when it
      lies outside the signed 32-bit range. */
  lemma IntegerRoundTrip(i: int, big: bool, rest: string)
    requires Delimited(rest)
    ensures NumberAt(IntToString(i) + rest, big)
         == Success(Parsed(if big && !InInt32(i) then BigIntString(IntToString(i)) else IntNum(i), rest))
  {
    var s := IntToString(i) + rest;
    var magnitude := if i < 0 then -i else i;
    var d := Decimal(magnitude);
    var a := if i < 0 then s[1..] else s;
    SignSplit(i, rest);
    IntegralOfDecimal(magnitude, rest);
    DecimalRoundTrip(magnitude);
    NoFractionNoExponent(rest);
    NumberAtParts(s, big, i < 0, a, d, rest, None, rest, None, rest, IntToString(i));
  }

  /** A delimiter is neither a fraction nor an exponent. */
  lemma NoFractionNoExponent(rest: string)
    requires Delimited(rest)
    ensures FractionPart(rest) == Success(Parsed(None, rest))
    ensures ExponentPart(rest) == Success(Parsed(None, rest))
  {
  }

  lemma FloatRoundTrip(m: int, e: int, big: bool, rest: string)
    requires Delimited(rest)
    ensures NumberAt(IntToString(m) + "E" + IntToString(e) + rest, big) == Success(Parsed(FloatNum(m, e), rest))
  {
    var c := "E" + IntToString(e) + rest;
    var s := IntToString(m) + c;
    Associate(IntToString(m), IntToString(e), rest);
    var mm := if m < 0 then -m else m;
    var d := Decimal(mm);
    var a := if m < 0 then s[1..] else s;
    SignSplit(m, c);
    IntegralOfDecimal(mm, c);
    DecimalRoundTrip(mm);
    NoFraction(c);
    ExponentOfDecimal(e, rest);
    var literal := IntToString(m) + "E" + IntToString(e);
    FloatValue(m, d, e, literal, big);
    NumberAtParts(s, big, m < 0, a, d, c, None, c, Some(e), rest, literal);
  }

  lemma Associate(a: string, b: string, c: string)
    ensures a + "E" + b + c == a + ("E" + b + c)
  {
  }

  lemma NoFraction(c: string)
    requires c == [] || c[0] != '.'
    ensures FractionPart(c) == Success(Parsed(None, c))
  {
  }

  lemma FloatValue(m: int, d: string, e: int, literal: string, big: bool)
    requires DigitsValue(d) == if m < 0 then -m else m
    ensures NumberValue(m < 0, d, None, Some(e), literal, big) == FloatNum(m, e)
  {
    assert d + "" == d;
  }

  lemma ExponentOfDecimal(e: int, rest: string)
    requires Delimited(rest)
    ensures ExponentPart("E" + IntToString(e) + rest) == Success(Parsed(Some(e), rest))
  {
    var magnitude := if e < 0 then -e else e;
    var t := Decimal(magnitude);
    DecimalDigits(magnitude);
    DecimalRoundTrip(magnitude);
    ExponentText("E" + IntToString(e) + rest, e, rest);
    ExponentDigits("E" + IntToString(e) + rest, e < 0, t, rest);
  }

  /** The exponent the serialiser writes: 'E', a '-' for a negative value, then its digits. */
  lemma ExponentText(c: string, e: int, rest: string)
    requires c == "E" + IntToString(e) + rest
    ensures c != [] && c[0] == 'E'
    ensures var t := Decimal(if e < 0 then -e else e);
      (|c| > 1 && (c[1] == '+' || c[1] == '-')) == (e < 0) && (|c| > 1 && c[1] == '-') == (e < 0)
      && (if e < 0 then c[2..] else c[1..]) == t + rest
  {
    var x := IntToString(e);
    var t := Decimal(if e < 0 then -e else e);
    DropPrefix("E", x + rest);
    assert c == "E" + (x + rest);
    if e < 0 {
      assert x == "-" + t;
      DropPrefix("-", t + rest);
      assert x + rest == "-" + (t + rest);
      DropTwice(c);
    }
  }

  lemma DropPrefix<T>(a: seq<T>, b: seq<T>)
    ensures (a + b)[|a|..] == b
  {
  }

  lemma DropTwice<T>(s: seq<T>)
    requires |s| >= 2
    ensures s[2..] == s[1..][1..]
  {
  }

  /** An exponent marker, an optional sign and a run of digits ending before `rest`. */
  lemma ExponentDigits(s: string, signed: bool, t: string, rest: string)
    requires s != [] && (s[0] == 'e' || s[0] == 'E')
    requires signed == (|s| > 1 && (s[1] == '+' || s[1] == '-'))
    requires (if signed then s[2..] else s[1..]) == t + rest
    requires t != [] && AllDigits(t) && (rest == [] || !IsDigit(rest[0]))
    ensures ExponentPart(s)
         == Success(Parsed(Some(if signed && s[1] == '-' then 0 - DigitsValue(t) else DigitsValue(t)), rest))
  {
    DigitRunOfDigits(t, rest);
  }

  lemma HexRoundTrip(d: nat)
    requires d < 16
    ensures IsHexDigit(HexChar(d)) && HexValue(HexChar(d)) == d
  {
  }

  /** The escape the serialiser writes for one character reads back as that character. */
  lemma EscapeCharStep(c: char, more: string, acc: string)
    ensures StringBody(EscapeChar(c) + more, acc) == StringBody(more, acc + [c])
  {
    var s := EscapeChar(c) + more;
    if c == '"' || c == '\\' {
      assert s[1..] == [c] + more;
    } else if c < ' ' {
      var hi := c as int / 16;
      var lo := c as int % 16;
      HexRoundTrip(hi);
      HexRoundTrip(lo);
      assert s[1..] == "u00" + [HexChar(hi), HexChar(lo)] + more;
      assert s[1..][5..] == more;
      assert s[1..][1] == '0' && s[1..][2] == '0';
      assert (c as int) as char == c;
    } else {
      assert s[1..] == more;
    }
  }

  /** A quoted, escaped string reads back as the string. */
  lemma {:induction false} EscapeRoundTrip(s: string, acc: string, rest: string)
    ensures StringBody(Escape(s) + "\"" + rest, acc) == Success(Parsed(acc + s, rest))
  {
    if s == [] {
      assert Escape(s) + "\"" + rest == "\"" + rest;
      assert acc + s == acc;
    } else {
      assert Escape(s) + "\"" + rest == EscapeChar(s[0]) + (Escape(s[1..]) + "\"" + rest);
      EscapeCharStep(s[0], Escape(s[1..]) + "\"" + rest, acc);
      EscapeRoundTrip(s[1..], acc + [s[0]], rest);
      assert acc + [s[0]] + s[1..] == acc + s;
    }
  }

  lemma StringRoundTrip(s: string, rest: string)
    ensures StringAt(Quote(s) + rest) == Success(Parsed(s, rest))
  {
    assert (Quote(s) + rest)[1..] == Escape(s) + "\"" + rest;
    EscapeRoundTrip(s, "", rest);
    assert "" + s == s;
  }

  /** Canonical text starts with the character that chooses its rule, never with whitespace. */
  lemma SerializeStart(j: Json, big: bool)
    requires Canonical(j, big)
    ensures Serialize(j) != []
    ensures j.JNull? ==> Serialize(j)[0] == 'n'
    ensures j.JBool? ==> Serialize(j)[0] == (if j.b then 't' else 'f')
    ensures j.JNumber? ==> Serialize(j)[0] == '-' || IsDigit(Serialize(j)[0])
    ensures j.JString? ==> Serialize(j)[0] == '"'
    ensures j.JArray? ==> Serialize(j)[0] == '['
    ensures j.JObject? ==> Serialize(j)[0] == '{'
    ensures !IsWs(Serialize(j)[0])
  {
    if j.JNumber? {
      match j.n
      case BigIntString(d) =>
        var i :| !InInt32(i) && d == IntToString(i);
      case _ =>
    }
  }

  /** Leading whitespace is dropped up to the first other character. */
  lemma {:induction false} SkipAllWs(w: string, x: string)
    requires AllWs(w) && (x == [] || !IsWs(x[0]))
    ensures SkipWs(w + x) == x
  {
    if w != [] {
      assert (w + x)[1..] == w[1..] + x;
      SkipAllWs(w[1..], x);
    } else {
      assert w + x == x;
    }
  }

  /** Where the reader stops after a value: arrays and objects also take the whitespace after them. */
  function After(j: Json, rest: string): string {
    if j.JArray? || j.JObject? then SkipWs(rest) else rest
  }

  /** Every value the decoder can produce reads back from its canonical text, and the reader stops
      right after it. */
  lemma {:induction false} ValueRoundTrip(j: Json, big: bool, rest: string)
    requires Canonical(j, big) && Delimited(rest)
    ensures ValueAt(Serialize(j) + rest, big) == Success(Parsed(j, After(j, rest)))
    decreases j, 2
  {
    SerializeStart(j, big);
    var s := Serialize(j) + rest;
    match j
    case JNull =>
      assert s[..4] == "null" && s[4..] == rest;
    case JBool(b) =>
      if b {
        assert s[..4] == "true" && s[4..] == rest;
      } else {
        assert s[..5] == "false" && s[5..] == rest;
      }
    case JNumber(n) =>
      NumberRoundTrip(n, big, rest);
    case JString(str) =>
      StringRoundTrip(str, rest);
    case JArray(items) =>
      ArrayRoundTrip(items, big, rest);
    case JObject(ms) =>
      ObjectRoundTrip(ms, big, rest);
  }

  lemma {:induction false} ArrayRoundTrip(items: seq<Json>, big: bool, rest: string)
    requires forall k :: 0 <= k < |items| ==> Canonical(items[k], big)
    requires Delimited(rest)
    ensures ArrayAt(Serialize(JArray(items)) + rest, big) == Success(Parsed(JArray(items), SkipWs(rest)))
    decreases items, 1
  {
    var inner := SerializeItems(items) + "]" + rest;
    Group4("[", SerializeItems(items), "]", rest);
    if items == [] {
      ArrayEmpty(Serialize(JArray(items)) + rest, big, rest);
    } else {
      ItemsStart(items, big);
      ItemsText(items, rest);
      ArrayOpen(Serialize(JArray(items)) + rest, big, inner);
      ElementsRoundTrip(items, big, [], rest);
      AppendNothing(items);
    }
  }

  lemma {:induction false} ObjectRoundTrip(ms: seq<(string, Json)>, big: bool, rest: string)
    requires Distinct(Keys(ms)) && forall k :: 0 <= k < |ms| ==> Canonical(ms[k].1, big)
    requires Delimited(rest)
    ensures ObjectAt(Serialize(JObject(ms)) + rest, big) == Success(Parsed(JObject(ms), SkipWs(rest)))
    decreases ms, 3
  {
    var inner := SerializeMembers(ms) + "}" + rest;
    Group4("{", SerializeMembers(ms), "}", rest);
    if ms == [] {
      ObjectEmpty(Serialize(JObject(ms)) + rest, big, rest);
    } else {
      MembersStart(ms, rest);
      ObjectOpen(Serialize(JObject(ms)) + rest, big, inner);
      AppendNothing(ms);
      MembersRoundTrip(ms, big, [], rest);
    }
  }

  lemma Group4<T>(a: seq<T>, b: seq<T>, c: seq<T>, d: seq<T>)
    ensures a + b + c + d == a + (b + c + d)
    ensures b == [] ==> a + b + c + d == a + c + d
  {
  }

  lemma AppendNothing<T>(s: seq<T>)
    ensures [] + s == s
  {
  }

  lemma ArrayEmpty(s: string, big: bool, rest: string)
    requires s == "[" + "]" + rest
    ensures ArrayAt(s, big) == Success(Parsed(JArray([]), SkipWs(rest)))
  {
    assert s[1..] == "]" + rest;
    assert SkipWs(s[1..])[1..] == rest;
  }

  lemma ArrayOpen(s: string, big: bool, inner: string)
    requires s == "[" + inner && inner != [] && inner[0] != ']' && SkipWs(inner) == inner
    ensures ArrayAt(s, big) == ElementsAt(inner, big, [])
  {
    assert s[1..] == inner;
  }

  lemma ObjectEmpty(s: string, big: bool, rest: string)
    requires s == "{" + "}" + rest
    ensures ObjectAt(s, big) == Success(Parsed(JObject([]), SkipWs(rest)))
  {
    assert s[1..] == "}" + rest;
    assert SkipWs(s[1..])[1..] == rest;
  }

  lemma ObjectOpen(s: string, big: bool, inner: string)
    requires s == "{" + inner && inner != [] && inner[0] != '}' && SkipWs(inner) == inner
    ensures ObjectAt(s, big) == MembersAt(inner, big, [])
  {
    assert s[1..] == inner;
  }

  lemma ItemsStart(items: seq<Json>, big: bool)
    requires items != [] && forall k :: 0 <= k < |items| ==> Canonical(items[k], big)
    ensures SerializeItems(items) != [] && SerializeItems(items)[0] == Serialize(items[0])[0]
    ensures SerializeItems(items)[0] != ']' && !IsWs(SerializeItems(items)[0])
  {
    SerializeStart(items[0], big);
  }

  /** The elements of an array and its closing ']' read back as the elements, after those in `acc`. */
  lemma {:induction false} ElementsRoundTrip(items: seq<Json>, big: bool, acc: seq<Json>, rest: string)
    requires items != [] && forall k :: 0 <= k < |items| ==> Canonical(items[k], big)
    requires Delimited(rest)
    ensures ElementsAt(SerializeItems(items) + "]" + rest, big, acc) == Success(Parsed(JArray(acc + items), SkipWs(rest)))
    decreases items, 0
  {
    var x := items[0];
    var tail := if |items| == 1 then "]" + rest else "," + (SerializeItems(items[1..]) + "]" + rest);
    ItemsText(items, rest);
    ValueRoundTrip(x, big, tail);
    AfterStop(x, tail);
    AppendHead(acc, items);
    if |items| == 1 {
      ElementsLast(Serialize(x) + tail, big, acc, x, tail, rest);
    } else {
      var more := SerializeItems(items[1..]) + "]" + rest;
      ItemsStart(items[1..], big);
      ElementsStep(Serialize(x) + tail, big, acc, x, tail, more);
      ElementsRoundTrip(items[1..], big, acc + [x], rest);
    }
  }

  /** The text of a non-empty list of elements: the first value, then what follows it. */
  lemma ItemsText(items: seq<Json>, rest: string)
    requires items != []
    ensures SerializeItems(items) + "]" + rest
         == Serialize(items[0]) + (if |items| == 1 then "]" + rest else "," + (SerializeItems(items[1..]) + "]" + rest))
  {
    if |items| == 1 {
      Group3(Serialize(items[0]), "]", rest);
    } else {
      assert SerializeItems(items) == Serialize(items[0]) + "," + SerializeItems(items[1..]);
      Group5(Serialize(items[0]), ",", SerializeItems(items[1..]), "]", rest);
    }
  }

  lemma Group3<T>(a: seq<T>, b: seq<T>, c: seq<T>)
    ensures a + b + c == a + (b + c)
  {
  }

  lemma Group5<T>(a: seq<T>, b: seq<T>, c: seq<T>, d: seq<T>, e: seq<T>)
    ensures a + b + c + d + e == a + (b + (c + d + e))
  {
  }

  lemma AfterStop(j: Json, t: string)
    requires t != [] && !IsWs(t[0])
    ensures After(j, t) == t && SkipWs(t) == t
  {
  }

  /** A value followed by ',' hands the rest of the elements to the next step. */
  lemma ElementsStep(s: string, big: bool, acc: seq<Json>, x: Json, t: string, more: string)
    requires ValueAt(s, big) == Success(Parsed(x, t)) && SkipWs(t) == t
    requires t == "," + more && SkipWs(more) == more
    ensures ElementsAt(s, big, acc) == ElementsAt(more, big, acc + [x])
  {
    assert t[1..] == more;
  }

  /** A value followed by ']' closes the array. */
  lemma ElementsLast(s: string, big: bool, acc: seq<Json>, x: Json, t: string, rest: string)
    requires ValueAt(s, big) == Success(Parsed(x, t)) && SkipWs(t) == t && t == "]" + rest
    ensures ElementsAt(s, big, acc) == Success(Parsed(JArray(acc + [x]), SkipWs(rest)))
  {
    assert t[1..] == rest;
  }

  lemma AppendHead<T>(acc: seq<T>, items: seq<T>)
    requires items != []
    ensures acc + [items[0]] + items[1..] == acc + items
    ensures |items| == 1 ==> acc + [items[0]] == acc + items
  {
    assert [items[0]] + items[1..] == items;
  }

  lemma KeysAppend(a: seq<(string, Json)>, b: seq<(string, Json)>)
    ensures Keys(a + b) == Keys(a) + Keys(b)
  {
  }

  /** The members of an object and its closing '}' read back as the members, after those in `acc`. */
  lemma {:induction false} MembersRoundTrip(ms: seq<(string, Json)>, big: bool, acc: seq<(string, Json)>, rest: string)
    requires ms != [] && forall k :: 0 <= k < |ms| ==> Canonical(ms[k].1, big)
    requires Distinct(Keys(acc + ms))
    requires Delimited(rest)
    ensures MembersAt(SerializeMembers(ms) + "}" + rest, big, acc) == Success(Parsed(JObject(acc + ms), SkipWs(rest)))
    decreases ms, 2
  {
    FreshHead(acc, ms);
    FirstMember(ms, big, acc, rest);
    if |ms| > 1 {
      MembersLater(ms, big, acc);
      MembersRoundTrip(ms[1..], big, acc + [ms[0]], rest);
    }
  }

  /** The first member is read and put after those in `acc`; then the rest of the members follow, or
      the object is closed. */
  lemma FirstMember(ms: seq<(string, Json)>, big: bool, acc: seq<(string, Json)>, rest: string)
    requires ms != [] && Canonical(ms[0].1, big) && FindKey(acc, ms[0].0) == |acc|
    requires Delimited(rest)
    ensures MembersAt(SerializeMembers(ms) + "}" + rest, big, acc)
         == if |ms| == 1 then Success(Parsed(JObject(acc + ms), SkipWs(rest)))
            else MembersAt(SerializeMembers(ms[1..]) + "}" + rest, big, acc + [ms[0]])
    decreases ms, 1
  {
    var m := ms[0];
    assert m.1 < m;
    var tail := if |ms| == 1 then "}" + rest else "," + (SerializeMembers(ms[1..]) + "}" + rest);
    MemberName(ms, big, acc, rest, Serialize(m.1) + tail);
    MemberValue(ms, big, acc, rest, tail);
  }

  /** The first member's name and ':' are read; its value follows. */
  lemma MemberName(ms: seq<(string, Json)>, big: bool, acc: seq<(string, Json)>, rest: string, t: string)
    requires ms != [] && Canonical(ms[0].1, big)
    requires t == Serialize(ms[0].1) + (if |ms| == 1 then "}" + rest else "," + (SerializeMembers(ms[1..]) + "}" + rest))
    ensures MembersAt(SerializeMembers(ms) + "}" + rest, big, acc) == MemberValueAt(t, big, acc, ms[0].0)
  {
    MembersText(ms, rest);
    StringRoundTrip(ms[0].0, ":" + t);
    SerializeStart(ms[0].1, big);
    MembersHead(Quote(ms[0].0) + (":" + t), big, acc, ms[0].0, t);
  }

  /** The first member's value is read and put after those in `acc`. */
  lemma MemberValue(ms: seq<(string, Json)>, big: bool, acc: seq<(string, Json)>, rest: string, tail: string)
    requires ms != [] && Canonical(ms[0].1, big) && FindKey(acc, ms[0].0) == |acc|
    requires Delimited(rest)
    requires tail == if |ms| == 1 then "}" + rest else "," + (SerializeMembers(ms[1..]) + "}" + rest)
    ensures MemberValueAt(Serialize(ms[0].1) + tail, big, acc, ms[0].0)
         == if |ms| == 1 then Success(Parsed(JObject(acc + ms), SkipWs(rest)))
            else MembersAt(SerializeMembers(ms[1..]) + "}" + rest, big, acc + [ms[0]])
    decreases ms, 0
  {
    var m := ms[0];
    assert m.1 < m;
    var t := Serialize(m.1) + tail;
    ValueRoundTrip(m.1, big, tail);
    AfterStop(m.1, tail);
    PutReplaces(acc, m.0, m.1);
    if |ms| == 1 {
      AppendHead(acc, ms);
      MemberValueLast(t, big, acc, m.0, m.1, tail, rest);
    } else {
      var more := SerializeMembers(ms[1..]) + "}" + rest;
      MembersStart(ms[1..], rest);
      MemberValueStep(t, big, acc, m.0, m.1, tail, more);
    }
  }

  /** What the members after the first still satisfy once the first joins `acc`. */
  lemma MembersLater(ms: seq<(string, Json)>, big: bool, acc: seq<(string, Json)>)
    requires ms != [] && forall k :: 0 <= k < |ms| ==> Canonical(ms[k].1, big)
    requires Distinct(Keys(acc + ms))
    ensures forall k :: 0 <= k < |ms[1..]| ==> Canonical(ms[1..][k].1, big)
    ensures Distinct(Keys(acc + [ms[0]] + ms[1..]))
    ensures acc + [ms[0]] + ms[1..] == acc + ms
  {
    AppendHead(acc, ms);
  }

  /** The text of a non-empty list of members: the first name, ':', its value, then what follows. */
  lemma MembersText(ms: seq<(string, Json)>, rest: string)
    requires ms != []
    ensures SerializeMembers(ms) + "}" + rest
         == Quote(ms[0].0) + (":" + (Serialize(ms[0].1)
              + (if |ms| == 1 then "}" + rest else "," + (SerializeMembers(ms[1..]) + "}" + rest))))
  {
    var m := ms[0];
    var q := Quote(m.0);
    var v := Serialize(m.1);
    if |ms| == 1 {
      assert SerializeMembers(ms) == q + ":" + v;
      Group5(q, ":", v, "}", rest);
    } else {
      assert SerializeMembers(ms) == q + ":" + v + "," + SerializeMembers(ms[1..]);
      Group7(q, ":", v, ",", SerializeMembers(ms[1..]), "}", rest);
    }
  }

  lemma Group7<T>(a: seq<T>, b: seq<T>, c: seq<T>, d: seq<T>, e: seq<T>, f: seq<T>, g: seq<T>)
    ensures a + b + c + d + e + f + g == a + (b + (c + (d + (e + f + g))))
  {
  }

  lemma MembersStart(ms: seq<(string, Json)>, rest: string)
    requires ms != []
    ensures var t := SerializeMembers(ms) + "}" + rest; t != [] && t[0] == '"' && SkipWs(t) == t
  {
    MembersText(ms, rest);
  }

  /** A name and ':' hand over to the member's value. */
  lemma MembersHead(s: string, big: bool, acc: seq<(string, Json)>, name: string, t: string)
    requires s != [] && s[0] == '"' && StringAt(s) == Success(Parsed(name, ":" + t)) && SkipWs(t) == t
    ensures MembersAt(s, big, acc) == MemberValueAt(t, big, acc, name)
  {
    assert (":" + t)[1..] == t;
  }

  /** With distinct names, the first of `ms` is not among the names already read. */
  lemma KeysClash(acc: seq<(string, Json)>, ms: seq<(string, Json)>, i: nat)
    requires i < |acc| && ms != [] && acc[i].0 == ms[0].0
    ensures !Distinct(Keys(acc + ms))
  {
    var ks := Keys(acc + ms);
    assert ks[i] == acc[i].0 && ks[|acc|] == ms[0].0;
  }

  lemma FreshHead(acc: seq<(string, Json)>, ms: seq<(string, Json)>)
    requires ms != [] && Distinct(Keys(acc + ms))
    ensures FindKey(acc, ms[0].0) == |acc|
  {
    var i := FindKey(acc, ms[0].0);
    if i < |acc| {
      KeysClash(acc, ms, i);
      assert false;
    }
  }

  /** A member value followed by ',' hands the remaining members to the next step. */
  lemma MemberValueStep(s: string, big: bool, acc: seq<(string, Json)>, name: string, x: Json, t: string, more: string)
    requires ValueAt(s, big) == Success(Parsed(x, t)) && SkipWs(t) == t
    requires t == "," + more && SkipWs(more) == more
    ensures MemberValueAt(s, big, acc, name) == MembersAt(more, big, Put(acc, name, x))
  {
    assert t[1..] == more;
  }

  /** A member value followed by '}' closes the object. */
  lemma MemberValueLast(s: string, big: bool, acc: seq<(string, Json)>, name: string, x: Json, t: string, rest: string)
    requires ValueAt(s, big) == Success(Parsed(x, t)) && SkipWs(t) == t && t == "}" + rest
    ensures MemberValueAt(s, big, acc, name) == Success(Parsed(JObject(Put(acc, name, x)), SkipWs(rest)))
  {
    assert t[1..] == rest;
  }

  /** A document made of one canonical value, with any whitespace around it, decodes to that value. */
  lemma DecodeRoundTrip(j: Json, big: bool, before: string, after: string)
    requires Canonical(j, big) && AllWs(before) && AllWs(after)
    ensures Decode(before + Serialize(j) + after, big) == Success(j)
  {
    SerializeStart(j, big);
    SkipAllWs(before, Serialize(j) + after);
    assert before + Serialize(j) + after == before + (Serialize(j) + after);
    ValueRoundTrip(j, big, after);
    SkipAllWs(after, []);
    assert after + [] == after;
    if j.JArray? || j.JObject? {
      assert SkipWs(SkipWs(after)) == [];
    }
  }

  /** A document whose value is followed by a ',', ']' or '}' is refused at that character: it
      holds one value only. */
  lemma TrailingRefused(j: Json, big: bool, before: string, t: string)
    requires Canonical(j, big) && AllWs(before)
    requires t != [] && (t[0] == ',' || t[0] == ']' || t[0] == '}')
    ensures Decode(before + Serialize(j) + t, big) == Failure(DecodeError(UnexpectedChar(t[0]), |t|))
  {
    var x := Serialize(j) + t;
    SerializeStart(j, big);
    Group3(before, Serialize(j), t);
    SkipAllWs(before, x);
    AfterStop(j, t);
    AfterStop(j, x);
    ValueRoundTrip(j, big, t);
    DecodeTrailing(before + x, big, j, t);
  }

  /** A value followed by something other than whitespace is refused at that character. */
  lemma DecodeTrailing(text: string, big: bool, x: Json, t: string)
    requires ValueAt(SkipWs(text), big) == Success(Parsed(x, t))
    requires t != [] && SkipWs(t) == t
    ensures Decode(text, big) == Failure(DecodeError(UnexpectedChar(t[0]), |t|))
  {
  }
}
