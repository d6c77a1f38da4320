/** The JSON grammar of RFC 7159 as a predictive, non-backtracking reader.
    Each function reads one rule from the front of a text and returns the
    value together with the text that follows, or the error that stops it.
    The class `JsonDecoder.Context` walks a cursor through the same steps. */
module JsonSpec {
  import opened Wrappers
  import opened Text
  import opened JsonValue

  /** Number of decimal digits at the front of `s`. */
  function DigitRun(s: string): (n: nat)
    ensures n <= |s|
    ensures n == |s| || !IsDigit(s[n])
  {
    if s != [] && IsDigit(s[0]) then 1 + DigitRun(s[1..]) else 0
  }

  /** `int = zero / ( digit1-9 *DIGIT )` of section 6 of RFC 7159: the digits of the integral part. */
  function IntegralPart(s: string): (r: Result<Parsed<string>, DecodeError>)
    ensures r.Success? ==> |r.value.rest| < |s|
    ensures r.Success? ==> r.value.value != []
    ensures r.Success? ==> |r.value.value| > 1 ==> r.value.value[0] != '0'
  {
    if s == [] then Failure(DecodeError(UnexpectedEnd, 0))
    else if !IsDigit(s[0]) then Failure(DecodeError(UnexpectedChar(s[0]), |s|))
    else if s[0] == '0' then
      if |s| > 1 && IsDigit(s[1]) then Failure(DecodeError(LeadingZero, |s| - 1))
      else Success(Parsed("0", s[1..]))
    else
      var n := DigitRun(s);
      Success(Parsed(s[..n], s[n..]))
  }

  /** `frac = decimal-point 1*DIGIT`, optional: None when `s` does not start with '.'. */
  function FractionPart(s: string): (r: Result<Parsed<Option<string>>, DecodeError>)
    ensures r.Success? ==> |r.value.rest| <= |s|
    ensures r.Success? && r.value.value.None? ==> r.value.rest == s
    ensures r.Success? && r.value.value.Some? ==>
      r.value.value.value != []
    ensures r.Failure? <==> s != [] && s[0] == '.' && DigitRun(s[1..]) == 0
  {
    if s == [] || s[0] != '.' then Success(Parsed(None, s))
    else
      var n := DigitRun(s[1..]);
      if n == 0 then Failure(DecodeError(DigitExpected, |s| - 1))
      else
        Success(Parsed(Some(s[1..][..n]), s[1 + n..]))
  }

  /** `exp = e [ minus / plus ] 1*DIGIT`, optional: None when `s` does not start with 'e' or 'E'. */
  function ExponentPart(s: string): (r: Result<Parsed<Option<int>>, DecodeError>)
    ensures r.Success? ==> |r.value.rest| <= |s|
    ensures r.Success? && r.value.value.None? ==> r.value.rest == s
    ensures r.Failure? ==> s != [] && (s[0] == 'e' || s[0] == 'E')
  {
    if s == [] || (s[0] != 'e' && s[0] != 'E') then Success(Parsed(None, s))
    else
      var signed := |s| > 1 && (s[1] == '+' || s[1] == '-');
      var t := if signed then s[2..] else s[1..];
      var n := DigitRun(t);
      if n == 0 then Failure(DecodeError(DigitExpected, |t|))
      else
        var magnitude: int := DigitsValue(t[..n]);
        Success(Parsed(Some(if signed && s[1] == '-' then -magnitude else magnitude), t[n..]))
  }

  /** The number a literal denotes: an integer without fraction and exponent, kept as its text when
      `big` is set and it lies outside the signed 32-bit range; otherwise the exact decimal value. */
  function NumberValue(negative: bool, digits: string, frac: Option<string>, exp: Option<int>,
                       literal: string, big: bool): Number
  {
    var sign := if negative then -1 else 1;
    if frac.None? && exp.None? then
      var i := sign * DigitsValue(digits);
      if big && !InInt32(i) then BigIntString(literal) else IntNum(i)
    else
      var f := if frac.Some? then frac.value else "";
      var e := if exp.Some? then exp.value else 0;
      FloatNum(sign * DigitsValue(digits + f), e - |f|)
  }

  /** `number = [ minus ] int [ frac ] [ exp ]` of section 6 of RFC 7159. */
  function NumberAt(s: string, big: bool): (r: Result<Parsed<Number>, DecodeError>)
    ensures r.Success? ==> |r.value.rest| < |s|
  {
    var negative := s != [] && s[0] == '-';
    var a := if negative then s[1..] else s;
    match IntegralPart(a)
    case Failure(e) => Failure(e)
    case Success(ip) =>
      match FractionPart(ip.rest)
      case Failure(e) => Failure(e)
      case Success(fp) =>
        match ExponentPart(fp.rest)
        case Failure(e) => Failure(e)
        case Success(ep) =>
          var rest := ep.rest;
          Success(Parsed(NumberValue(negative, ip.value, fp.value, ep.value, s[..|s| - |rest|], big), rest))
  }

  /** `NumberAt` put together from its three parts. */
  lemma NumberAtParts(s: string, big: bool, negative: bool, a: string, digits: string, b: string,
                      frac: Option<string>, c: string, exp: Option<int>, rest: string, literal: string)
    requires negative == (s != [] && s[0] == '-') && a == if negative then s[1..] else s
    requires IntegralPart(a) == Success(Parsed(digits, b))
    requires FractionPart(b) == Success(Parsed(frac, c))
    requires ExponentPart(c) == Success(Parsed(exp, rest))
    requires s == literal + rest
    ensures NumberAt(s, big) == Success(Parsed(NumberValue(negative, digits, frac, exp, literal, big), rest))
  {
    assert s[..|s| - |rest|] == literal;
  }

  predicate IsHexDigit(c: char) {
    '0' <= c <= '9' || 'a' <= c <= 'f' || 'A' <= c <= 'F'
  }

  function HexValue(c: char): (d: nat)
    requires IsHexDigit(c)
    ensures d < 16
  {
    if '0' <= c <= '9' then c as int - '0' as int
    else if 'a' <= c <= 'f' then c as int - 'a' as int + 10
    else c as int - 'A' as int + 10
  }

  /** The character an escape sequence stands for; `s` is the text after the backslash.
      A `\uXXXX` naming a UTF-16 surrogate is refused: a lone code unit is not a character. */
  function EscapeAt(s: string): (r: Result<Parsed<char>, DecodeError>)
    ensures r.Success? ==> |r.value.rest| < |s|
  {
    if s == [] then Failure(DecodeError(UnexpectedEnd, 0))
    else if s[0] == '"' then Success(Parsed('"', s[1..]))
    else if s[0] == '\\' then Success(Parsed('\\', s[1..]))
    else if s[0] == '/' then Success(Parsed('/', s[1..]))
    else if s[0] == 'b' then Success(Parsed('\U{8}', s[1..]))
    else if s[0] == 'f' then Success(Parsed('\U{C}', s[1..]))
    else if s[0] == 'n' then Success(Parsed('\n', s[1..]))
    else if s[0] == 'r' then Success(Parsed('\r', s[1..]))
    else if s[0] == 't' then Success(Parsed('\t', s[1..]))
    else if s[0] == 'u' then
      if |s| < 5 || !(IsHexDigit(s[1]) && IsHexDigit(s[2]) && IsHexDigit(s[3]) && IsHexDigit(s[4])) then
        Failure(DecodeError(InvalidEscape, |s|))
      else
        var v := ((HexValue(s[1]) * 16 + HexValue(s[2])) * 16 + HexValue(s[3])) * 16 + HexValue(s[4]);
        if 0xD800 <= v <= 0xDFFF then Failure(DecodeError(InvalidEscape, |s|))
        else Success(Parsed(v as char, s[5..]))
    else Failure(DecodeError(InvalidEscape, |s|))
  }

  /** The characters of a string up to its closing quote, appended to `acc`. */
  function StringBody(s: string, acc: string): (r: Result<Parsed<string>, DecodeError>)
    ensures r.Success? ==> |r.value.rest| < |s|
    decreases |s|
  {
    if s == [] then Failure(DecodeError(UnexpectedEnd, 0))
    else if s[0] == '"' then Success(Parsed(acc, s[1..]))
    else if s[0] == '\\' then
      match EscapeAt(s[1..])
      case Failure(e) => Failure(e)
      case Success(p) => StringBody(p.rest, acc + [p.value])
    else if s[0] < ' ' then Failure(DecodeError(ControlCharacter, |s|))
    else StringBody(s[1..], acc + [s[0]])
  }

  /** `string = quotation-mark *char quotation-mark` of section 7 of RFC 7159. */
  function StringAt(s: string): (r: Result<Parsed<string>, DecodeError>)
    requires s != [] && s[0] == '"'
    ensures r.Success? ==> |r.value.rest| < |s|
  {
    StringBody(s[1..], "")
  }

  /** The literal names `true`, `false` and `null` of section 3 of RFC 7159, matched exactly. */
  function LiteralAt(s: string): (r: Result<Parsed<Json>, DecodeError>)
    ensures r.Success? ==> |r.value.rest| < |s|
  {
    if |s| >= 4 && s[..4] == "true" then Success(Parsed(JBool(true), s[4..]))
    else if |s| >= 5 && s[..5] == "false" then Success(Parsed(JBool(false), s[5..]))
    else if |s| >= 4 && s[..4] == "null" then Success(Parsed(JNull, s[4..]))
    else Failure(DecodeError(InvalidLiteral, |s|))
  }

  /** `value` of section 3 of RFC 7159: the first character chooses the rule. */
  function ValueAt(s: string, big: bool): (r: Result<Parsed<Json>, DecodeError>)
    ensures r.Success? ==> |r.value.rest| < |s|
    decreases |s|, 1
  {
    if s == [] then Failure(DecodeError(UnexpectedEnd, 0))
    else if s[0] == '{' then ObjectAt(s, big)
    else if s[0] == '[' then ArrayAt(s, big)
    else if s[0] == '"' then
      match StringAt(s)
      case Failure(e) => Failure(e)
      case Success(p) => Success(Parsed(JString(p.value), p.rest))
    else if s[0] == '-' || IsDigit(s[0]) then
      match NumberAt(s, big)
      case Failure(e) => Failure(e)
      case Success(p) => Success(Parsed(JNumber(p.value), p.rest))
    else if s[0] == 't' || s[0] == 'f' || s[0] == 'n' then LiteralAt(s)
    else Failure(DecodeError(UnexpectedChar(s[0]), |s|))
  }

  /** `array = begin-array [ value *( value-separator value ) ] end-array` of section 5 of RFC 7159;
      the whitespace around each structural character is consumed, also after the closing ']'. */
  function ArrayAt(s: string, big: bool): (r: Result<Parsed<Json>, DecodeError>)
    requires s != [] && s[0] == '['
    ensures r.Success? ==> |r.value.rest| < |s|
    decreases |s|, 0
  {
    var t := SkipWs(s[1..]);
    if t != [] && t[0] == ']' then
      var u := SkipWs(t[1..]);
      Success(Parsed(JArray([]), u))
    else ElementsAt(t, big, [])
  }

  /** The elements of an array from its first (or next) value on; `acc` holds those already read. */
  function ElementsAt(s: string, big: bool, acc: seq<Json>): (r: Result<Parsed<Json>, DecodeError>)
    ensures r.Success? ==> |r.value.rest| < |s|
    decreases |s|, 2
  {
    match ValueAt(s, big)
    case Failure(e) => Failure(e)
    case Success(p) =>
      var u := SkipWs(p.rest);
      if u == [] then Failure(DecodeError(UnexpectedEnd, 0))
      else
        var v := SkipWs(u[1..]);
        if u[0] == ',' then ElementsAt(v, big, acc + [p.value])
        else if u[0] == ']' then Success(Parsed(JArray(acc + [p.value]), v))
      else Failure(DecodeError(UnexpectedChar(u[0]), |u|))
  }

  /** `object = begin-object [ member *( value-separator member ) ] end-object` of section 4 of
      RFC 7159; a repeated name overwrites the earlier value in its place. */
  function ObjectAt(s: string, big: bool): (r: Result<Parsed<Json>, DecodeError>)
    requires s != [] && s[0] == '{'
    ensures r.Success? ==> |r.value.rest| < |s|
    decreases |s|, 0
  {
    var t := SkipWs(s[1..]);
    if t != [] && t[0] == '}' then
      var u := SkipWs(t[1..]);
      Success(Parsed(JObject([]), u))
    else MembersAt(t, big, [])
  }

  /** The members of an object from its first (or next) name on; `acc` holds those already read. */
  function MembersAt(s: string, big: bool, acc: seq<(string, Json)>): (r: Result<Parsed<Json>, DecodeError>)
    ensures r.Success? ==> |r.value.rest| < |s|
    decreases |s|, 2
  {
    if s == [] then Failure(DecodeError(UnexpectedEnd, 0))
    else if s[0] != '"' then Failure(DecodeError(UnexpectedChar(s[0]), |s|))
    else
      match StringAt(s)
      case Failure(e) => Failure(e)
      case Success(name) =>
        var u := SkipWs(name.rest);
        if u == [] then Failure(DecodeError(UnexpectedEnd, 0))
        else if u[0] != ':' then Failure(DecodeError(UnexpectedChar(u[0]), |u|))
        else
          var v := SkipWs(u[1..]);
          MemberValueAt(v, big, acc, name.value)
  }

  /** The value of member `name`, then the ',' before the next member or the closing '}'. */
  function MemberValueAt(s: string, big: bool, acc: seq<(string, Json)>, name: string)
    : (r: Result<Parsed<Json>, DecodeError>)
    ensures r.Success? ==> |r.value.rest| < |s|
    decreases |s|, 3
  {
    match ValueAt(s, big)
    case Failure(e) => Failure(e)
    case Success(p) =>
      var w := SkipWs(p.rest);
      var members := Put(acc, name, p.value);
      if w == [] then Failure(DecodeError(UnexpectedEnd, 0))
      else
        var x := SkipWs(w[1..]);
        if w[0] == ',' then MembersAt(x, big, members)
        else if w[0] == '}' then Success(Parsed(JObject(members), x))
        else Failure(DecodeError(UnexpectedChar(w[0]), |w|))
  }

  /** `JSON-text = ws value ws` of section 2 of RFC 7159: anything after the trailing whitespace is
      an unexpected character. */
  function Decode(text: string, big: bool): (r: Result<Json, DecodeError>)
  {
    match ValueAt(SkipWs(text), big)
    case Failure(e) => Failure(e)
    case Success(p) => Finish(p.value, SkipWs(p.rest))
  }

  /** The end of a document whose value has been read and whose text `u` remains after the
      trailing whitespace. */
  function Finish(value: Json, u: string): Result<Json, DecodeError> {
    if u != [] then Failure(DecodeError(UnexpectedChar(u[0]), |u|)) else Success(value)
  }
}
