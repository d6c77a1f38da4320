/** Values produced by the JSON decoder (RFC 7159), the errors it raises,
    and a canonical serialiser used to state the decoder's round trip. */
module JsonValue {
  import opened Text

  /** A decoded number.
      `IntNum` is a literal with neither fraction nor exponent.
      `BigIntString` is such a literal kept as its own text (the BIGINT_AS_STRING option).
      `FloatNum(m, e)` stands for the exact value m * 10^e of a literal with a fraction or an exponent. */
  datatype Number =
    | IntNum(i: int)
    | BigIntString(digits: string)
    | FloatNum(mantissa: int, exponent: int)

  /** A decoded JSON value. An object keeps its members in first-insertion order, one per key. */
  datatype Json =
    | JNull
    | JBool(b: bool)
    | JNumber(n: Number)
    | JString(s: string)
    | JArray(items: seq<Json>)
    | JObject(members: seq<(string, Json)>)

  /** Why decoding stopped. */
  datatype Reason =
    | UnexpectedEnd
    | UnexpectedChar(c: char)
    | LeadingZero
    | DigitExpected
    | InvalidLiteral
    | InvalidEscape
    | ControlCharacter

  /** A decode error; `remaining` is the number of characters left from where it was found. */
  datatype DecodeError = DecodeError(reason: Reason, remaining: nat)

  /** A value read from the front of a text, and the text that follows it. */
  datatype Parsed<+T> = Parsed(value: T, rest: string)

  /** `ws` of section 2 of RFC 7159: space, horizontal tab, line feed, carriage return. */
  predicate IsWs(c: char) {
    c == ' ' || c == '\t' || c == '\n' || c == '\r'
  }

  /** The whitespace rule: drops the longest run of whitespace at the front; it never fails. */
  function SkipWs(s: string): (r: string)
    ensures |r| <= |s|
    ensures r == [] || !IsWs(r[0])
  {
    if s != [] && IsWs(s[0]) then SkipWs(s[1..]) else s
  }

  predicate Distinct(ks: seq<string>) {
    forall a, b :: 0 <= a < b < |ks| ==> ks[a] != ks[b]
  }

  function Keys(ms: seq<(string, Json)>): (ks: seq<string>)
    ensures |ks| == |ms|
    ensures forall k :: 0 <= k < |ms| ==> ks[k] == ms[k].0
  {
    if ms == [] then [] else [ms[0].0] + Keys(ms[1..])
  }

  /** Assigning member `key` of an object: an existing member takes the new value in its place,
      a new key is appended. */
  function Put(ms: seq<(string, Json)>, key: string, v: Json): seq<(string, Json)>
  {
    if ms == [] then [(key, v)]
    else if ms[0].0 == key then [(key, v)] + ms[1..]
    else [ms[0]] + Put(ms[1..], key, v)
  }

  /** The names after a `Put`: unchanged when `key` is present, `key` appended otherwise. */
  lemma {:induction false} PutKeys(ms: seq<(string, Json)>, key: string, v: Json)
    ensures Keys(Put(ms, key, v)) == if key in Keys(ms) then Keys(ms) else Keys(ms) + [key]
  {
    if ms != [] && ms[0].0 != key {
      PutKeys(ms[1..], key, v);
      assert Keys(ms) == [ms[0].0] + Keys(ms[1..]);
    }
  }

  /** The index of the first member named `key`; `|ms|` when there is none. */
  function FindKey(ms: seq<(string, Json)>, key: string): (i: nat)
    ensures i <= |ms|
    ensures i < |ms| ==> ms[i].0 == key
    ensures forall k :: 0 <= k < i ==> ms[k].0 != key
  {
    if ms == [] then 0 else if ms[0].0 == key then 0 else 1 + FindKey(ms[1..], key)
  }

  /** `Put` overwrites the first member named `key` in its place and keeps the others; a new name is
      appended at the end. */
  lemma {:induction false} PutReplaces(ms: seq<(string, Json)>, key: string, v: Json)
    ensures var i := FindKey(ms, key);
      Put(ms, key, v) == if i == |ms| then ms + [(key, v)] else ms[..i] + [(key, v)] + ms[i + 1..]
  {
    if ms != [] && ms[0].0 != key {
      PutReplaces(ms[1..], key, v);
      var i := FindKey(ms[1..], key);
      SpliceCons(ms, i, (key, v));
    }
  }

  lemma SpliceCons<T>(s: seq<T>, i: nat, y: T)
    requires s != []
    ensures i < |s| - 1 ==> [s[0]] + (s[1..][..i] + [y] + s[1..][i + 1..]) == s[..i + 1] + [y] + s[i + 2..]
    ensures [s[0]] + (s[1..] + [y]) == s + [y]
  {
    if i < |s| - 1 {
      assert [s[0]] + s[1..][..i] == s[..i + 1];
      assert s[1..][i + 1..] == s[i + 2..];
    }
    assert [s[0]] + s[1..] == s;
  }

  /** `Put` keeps the names of an object distinct. */
  lemma PutDistinct(ms: seq<(string, Json)>, key: string, v: Json)
    requires Distinct(Keys(ms))
    ensures Distinct(Keys(Put(ms, key, v)))
  {
    PutKeys(ms, key, v);
  }

  const Int32Min: int := -0x8000_0000
  const Int32Max: int := 0x7fff_ffff

  predicate InInt32(i: int) {
    Int32Min <= i <= Int32Max
  }

  function HexChar(d: nat): (c: char)
    requires d < 16
  {
    if d < 10 then DigitChar(d) else (d - 10 + 'a' as int) as char
  }

  /** How the serialiser writes one string character. */
  function EscapeChar(c: char): (r: string)
    ensures |r| >= 1
  {
    if c == '"' then "\\\""
    else if c == '\\' then "\\\\"
    else if c < ' ' then "\\u00" + [HexChar(c as int / 16), HexChar(c as int % 16)]
    else [c]
  }

  function Escape(s: string): string {
    if s == [] then "" else EscapeChar(s[0]) + Escape(s[1..])
  }

  function Quote(s: string): string {
    "\"" + Escape(s) + "\""
  }

  function SerializeNumber(n: Number): (r: string)
    ensures r != []
  {
    match n
    case IntNum(i) => IntToString(i)
    case BigIntString(d) => if d == [] then "0" else d
    case FloatNum(m, e) => IntToString(m) + "E" + IntToString(e)
  }

  /** Canonical JSON text of a value: no whitespace, exponent form for non-integers. */
  function Serialize(j: Json): (r: string)
    decreases j, 1
  {
    match j
    case JNull => "null"
    case JBool(b) => if b then "true" else "false"
    case JNumber(n) => SerializeNumber(n)
    case JString(s) => Quote(s)
    case JArray(items) => "[" + SerializeItems(items) + "]"
    case JObject(ms) => "{" + SerializeMembers(ms) + "}"
  }

  function SerializeItems(items: seq<Json>): string
    decreases items, 0
  {
    if items == [] then ""
    else if |items| == 1 then Serialize(items[0])
    else Serialize(items[0]) + "," + SerializeItems(items[1..])
  }

  function SerializeMembers(ms: seq<(string, Json)>): string
    decreases ms, 0
  {
    if ms == [] then ""
    else
      var m := ms[0];
      assert m.1 < m;
      var first := Quote(m.0) + ":" + Serialize(m.1);
      if |ms| == 1 then first else first + "," + SerializeMembers(ms[1..])
  }

  /** Numbers the decoder can produce under the BIGINT_AS_STRING setting `big`. */
  ghost predicate CanonicalNumber(n: Number, big: bool) {
    match n
    case IntNum(i) => !big || InInt32(i)
    case BigIntString(d) => big && exists i :: !InInt32(i) && d == IntToString(i)
    case FloatNum(_, _) => true
  }

  /** Values the decoder can produce: numbers as above and objects without duplicate keys. */
  ghost predicate Canonical(j: Json, big: bool) {
    match j
    case JNumber(n) => CanonicalNumber(n, big)
    case JArray(items) => forall k :: 0 <= k < |items| ==> Canonical(items[k], big)
    case JObject(ms) => Distinct(Keys(ms)) && forall k :: 0 <= k < |ms| ==> Canonical(ms[k].1, big)
    case _ => true
  }
}
