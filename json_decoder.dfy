/** The decoder as it runs: a `Context` holds the input and a cursor, and each grammar rule is a
    method that moves the cursor past what it reads. Every method is proved to return what the
    matching function of `JsonSpec` returns and to leave the cursor where that function's rest
    begins. `NumberRule`, `ValueRule` and `RootRule` are the rule objects that keep their result. */
module JsonDecoder {
  import opened Wrappers
  import opened Text
  import opened JsonValue
  import opened JsonSpec

  /** A method's outcome paired with the text the cursor has left, to compare with a rule function. */
  function Located<T>(r: Result<T, DecodeError>, rest: string): Result<Parsed<T>, DecodeError> {
    match r
    case Success(v) => Success(Parsed(v, rest))
    case Failure(e) => Failure(e)
  }

  lemma SliceOfSuffix(t: string, i: nat, j: nat)
    requires i <= j <= |t|
    ensures t[i..j] == t[i..][..j - i] == t[i..][..|t[i..]| - |t[j..]|]
  {
  }

  /** How `ExponentPart` goes on once the marker and the sign are read and `n` digits follow. */
  lemma ExponentCases(s: string, t: string, negative: bool, n: nat)
    requires s != [] && (s[0] == 'e' || s[0] == 'E')
    requires t == if |s| > 1 && (s[1] == '+' || s[1] == '-') then s[2..] else s[1..]
    requires negative == (|s| > 1 && s[1] == '-')
    requires n == DigitRun(t)
    ensures n == 0 ==> ExponentPart(s) == Failure(DecodeError(DigitExpected, |t|))
    ensures n > 0 ==> ExponentPart(s) == Success(Parsed(Some(
      if negative then 0 - DigitsValue(t[..n]) else DigitsValue(t[..n])), t[n..]))
  {
  }

  /** What follows a member's value decides how `MemberValueAt` goes on. */
  lemma MemberValueCases(s: string, big: bool, acc: seq<(string, Json)>, name: string, x: Json, p: string)
    requires ValueAt(s, big) == Success(Parsed(x, p))
    ensures var w := SkipWs(p); var members := Put(acc, name, x);
      MemberValueAt(s, big, acc, name)
        == if w == [] then Failure(DecodeError(UnexpectedEnd, 0))
           else if w[0] == ',' then MembersAt(SkipWs(w[1..]), big, members)
           else if w[0] == '}' then Success(Parsed(JObject(members), SkipWs(w[1..])))
           else Failure(DecodeError(UnexpectedChar(w[0]), |w|))
  {
  }

  lemma SplitSuffix<T>(t: seq<T>, i: nat, j: nat)
    requires i <= j <= |t|
    ensures t[i..] == t[i..j] + t[j..]
  {
  }

  /** The input text, the cursor into it and the BIGINT_AS_STRING option. */
  class Context {
    const text: string
    const bigIntAsString: bool
    var pos: nat

    predicate Valid()
      reads this
    {
      pos <= |text|
    }

    /** The text from the cursor on. */
    function Rest(): (r: string)
      requires Valid()
      reads this
      ensures |r| == |text| - pos
    {
      text[pos..]
    }

    /** The character under the cursor; None at the end of the input. */
    function Current(): (c: Option<char>)
      requires Valid()
      reads this
      ensures c.None? <==> Rest() == []
      ensures c.Some? ==> c.value == Rest()[0]
    {
      if pos < |text| then Some(text[pos]) else None
    }

    constructor(text: string, bigIntAsString: bool)
      ensures Valid()
      ensures this.text == text && this.bigIntAsString == bigIntAsString && pos == 0
    {
      this.text := text;
      this.bigIntAsString := bigIntAsString;
      pos := 0;
    }

    /** Moves the cursor one character on. */
    method Next()
      requires Valid() && pos < |text|
      modifies this
      ensures Valid() && pos == old(pos) + 1 && Rest() == old(Rest())[1..]
    {
      pos := pos + 1;
    }

    /** The whitespace rule. */
    method SkipWhitespace()
      requires Valid()
      modifies this
      ensures Valid() && Rest() == SkipWs(old(Rest()))
    {
      while pos < |text| && IsWs(text[pos])
        invariant Valid() && SkipWs(Rest()) == SkipWs(old(Rest()))
        decreases |text| - pos
      {
        Next();
      }
    }

    /** Moves the cursor past a run of digits and returns its length. */
    method SkipDigits() returns (n: nat)
      requires Valid()
      modifies this
      ensures Valid() && n == DigitRun(old(Rest())) && Rest() == old(Rest())[n..]
    {
      ghost var s0 := Rest();
      n := 0;
      while pos < |text| && IsDigit(text[pos])
        invariant Valid() && pos == old(pos) + n
        invariant Rest() == s0[n..] && DigitRun(s0) == n + DigitRun(Rest())
        decreases |text| - pos
      {
        Next();
        n := n + 1;
      }
    }

    /** Moves the cursor past a run of digits and returns them. */
    method ReadDigits() returns (d: string)
      requires Valid()
      modifies this
      ensures Valid() && |d| == DigitRun(old(Rest()))
      ensures d == old(Rest())[..|d|] && Rest() == old(Rest())[|d|..]
    {
      var start := pos;
      var n := SkipDigits();
      SliceOfSuffix(text, start, pos);
      d := text[start..pos];
    }

    method HandleIntegralPart() returns (r: Result<string, DecodeError>)
      requires Valid()
      modifies this
      ensures Valid() && Located(r, Rest()) == IntegralPart(old(Rest()))
    {
      if pos == |text| {
        return Failure(DecodeError(UnexpectedEnd, 0));
      }
      var c := text[pos];
      if !IsDigit(c) {
        return Failure(DecodeError(UnexpectedChar(c), |text| - pos));
      }
      if c == '0' {
        if pos + 1 < |text| && IsDigit(text[pos + 1]) {
          return Failure(DecodeError(LeadingZero, |text| - pos - 1));
        }
        pos := pos + 1;
        return Success("0");
      }
      var d := ReadDigits();
      return Success(d);
    }

    method HandleFractionPart() returns (r: Result<Option<string>, DecodeError>)
      requires Valid()
      modifies this
      ensures Valid() && Located(r, Rest()) == FractionPart(old(Rest()))
    {
      if pos == |text| || text[pos] != '.' {
        return Success(None);
      }
      ghost var s0 := Rest();
      Next();
      var d := ReadDigits();
      if d == [] {
        return Failure(DecodeError(DigitExpected, |text| - pos));
      }
      return Success(Some(d));
    }

    method HandleExponentPart() returns (r: Result<Option<int>, DecodeError>)
      requires Valid()
      modifies this
      ensures Valid() && Located(r, Rest()) == ExponentPart(old(Rest()))
    {
      if pos == |text| || (text[pos] != 'e' && text[pos] != 'E') {
        return Success(None);
      }
      ghost var s0 := Rest();
      var negative := SkipExponentMarker();
      ghost var t := Rest();
      var digits := ReadDigits();
      ExponentCases(s0, t, negative, |digits|);
      if digits == [] {
        assert Rest() == t && |Rest()| == |text| - pos;
        return Failure(DecodeError(DigitExpected, |text| - pos));
      }
      var magnitude: int := DigitsValue(digits);
      return Success(Some(if negative then -magnitude else magnitude));
    }

    /** Moves past 'e' or 'E' and an optional sign; answers whether the sign is '-'. */
    method SkipExponentMarker() returns (negative: bool)
      requires Valid() && pos < |text| && (text[pos] == 'e' || text[pos] == 'E')
      modifies this
      ensures Valid()
      ensures var s := old(Rest()); var signed := |s| > 1 && (s[1] == '+' || s[1] == '-');
        Rest() == (if signed then s[2..] else s[1..]) && negative == (signed && s[1] == '-')
    {
      negative := false;
      pos := pos + 1;
      if pos < |text| && (text[pos] == '+' || text[pos] == '-') {
        negative := text[pos] == '-';
        pos := pos + 1;
      }
    }

    /** The number rule: sign, integral part, fraction, exponent, then the value they denote. */
    method HandleNumber() returns (r: Result<Number, DecodeError>)
      requires Valid()
      modifies this
      ensures Valid() && Located(r, Rest()) == NumberAt(old(Rest()), bigIntAsString)
    {
      ghost var s0 := Rest();
      var start := pos;
      var negative := pos < |text| && text[pos] == '-';
      if negative {
        pos := pos + 1;
      }
      ghost var a := Rest();
      assert a == if negative then s0[1..] else s0;
      var ip := HandleIntegralPart();
      if ip.Failure? {
        return Failure(ip.error);
      }
      ghost var b := Rest();
      var fp := HandleFractionPart();
      if fp.Failure? {
        return Failure(fp.error);
      }
      ghost var c := Rest();
      var ep := HandleExponentPart();
      if ep.Failure? {
        return Failure(ep.error);
      }
      ghost var rest := Rest();
      var literal := text[start..pos];
      SplitSuffix(text, start, pos);
      NumberAtParts(s0, bigIntAsString, negative, a, ip.value, b, fp.value, c, ep.value, rest, literal);
      return Success(NumberValue(negative, ip.value, fp.value, ep.value, literal, bigIntAsString));
    }

    /** The escape sequence after a backslash. */
    method HandleEscape() returns (r: Result<char, DecodeError>)
      requires Valid()
      modifies this
      ensures Valid() && Located(r, Rest()) == EscapeAt(old(Rest()))
    {
      if pos == |text| {
        return Failure(DecodeError(UnexpectedEnd, 0));
      }
      var c := text[pos];
      var simple := if c == '"' then Some('"')
        else if c == '\\' then Some('\\')
        else if c == '/' then Some('/')
        else if c == 'b' then Some('\U{8}')
        else if c == 'f' then Some('\U{C}')
        else if c == 'n' then Some('\n')
        else if c == 'r' then Some('\r')
        else if c == 't' then Some('\t')
        else None;
      if simple.Some? {
        Next();
        return Success(simple.value);
      }
      if c != 'u' {
        return Failure(DecodeError(InvalidEscape, |text| - pos));
      }
      if pos + 5 > |text| || !(IsHexDigit(text[pos + 1]) && IsHexDigit(text[pos + 2])
                              && IsHexDigit(text[pos + 3]) && IsHexDigit(text[pos + 4])) {
        return Failure(DecodeError(InvalidEscape, |text| - pos));
      }
      var v := ((HexValue(text[pos + 1]) * 16 + HexValue(text[pos + 2])) * 16
                + HexValue(text[pos + 3])) * 16 + HexValue(text[pos + 4]);
      if 0xD800 <= v <= 0xDFFF {
        return Failure(DecodeError(InvalidEscape, |text| - pos));
      }
      assert text[pos + 5..] == Rest()[5..];
      pos := pos + 5;
      return Success(v as char);
    }

    /** The string rule: characters up to the closing quote, with escapes replaced. */
    method HandleString() returns (r: Result<string, DecodeError>)
      requires Valid() && pos < |text| && text[pos] == '"'
      modifies this
      ensures Valid() && Located(r, Rest()) == StringAt(old(Rest()))
    {
      ghost var s0 := Rest();
      Next();
      var acc := "";
      while true
        invariant Valid() && StringBody(Rest(), acc) == StringAt(s0)
        decreases |text| - pos
      {
        if pos == |text| {
          return Failure(DecodeError(UnexpectedEnd, 0));
        }
        var c := text[pos];
        if c == '"' {
          Next();
          return Success(acc);
        } else if c == '\\' {
          Next();
          var e := HandleEscape();
          if e.Failure? {
            return Failure(e.error);
          }
          acc := acc + [e.value];
        } else if c < ' ' {
          return Failure(DecodeError(ControlCharacter, |text| - pos));
        } else {
          Next();
          acc := acc + [c];
        }
      }
    }

    /** Whether `word` stands at the cursor. */
    function LooksAt(word: string): (b: bool)
      requires Valid()
      reads this
      ensures b <==> |Rest()| >= |word| && Rest()[..|word|] == word
    {
      assert pos + |word| <= |text| ==> text[pos..pos + |word|] == Rest()[..|word|];
      pos + |word| <= |text| && text[pos..pos + |word|] == word
    }

    /** Moves the cursor `n` characters on. */
    method Skip(n: nat)
      requires Valid() && pos + n <= |text|
      modifies this
      ensures Valid() && Rest() == old(Rest())[n..]
    {
      pos := pos + n;
    }

    /** The literal rule: `true`, `false` or `null`. */
    method HandleLiteral() returns (r: Result<Json, DecodeError>)
      requires Valid()
      modifies this
      ensures Valid() && Located(r, Rest()) == LiteralAt(old(Rest()))
    {
      if LooksAt("true") {
        Skip(4);
        return Success(JBool(true));
      } else if LooksAt("false") {
        Skip(5);
        return Success(JBool(false));
      } else if LooksAt("null") {
        Skip(4);
        return Success(JNull);
      }
      return Failure(DecodeError(InvalidLiteral, |text| - pos));
    }

    /** The value rule: the character under the cursor chooses the rule to run. */
    method HandleValue() returns (r: Result<Json, DecodeError>)
      requires Valid()
      modifies this
      ensures Valid() && Located(r, Rest()) == ValueAt(old(Rest()), bigIntAsString)
      decreases |text| - pos, 1
    {
      if pos == |text| {
        return Failure(DecodeError(UnexpectedEnd, 0));
      }
      var c := text[pos];
      if c == '{' {
        r := HandleObject();
      } else if c == '[' {
        r := HandleArray();
      } else if c == '"' {
        var s := HandleString();
        r := if s.Success? then Success(JString(s.value)) else Failure(s.error);
      } else if c == '-' || IsDigit(c) {
        var n := HandleNumber();
        r := if n.Success? then Success(JNumber(n.value)) else Failure(n.error);
      } else if c == 't' || c == 'f' || c == 'n' {
        r := HandleLiteral();
      } else {
        r := Failure(DecodeError(UnexpectedChar(c), |text| - pos));
      }
    }

    /** The array rule, from '[' to the whitespace after the closing ']'. */
    method HandleArray() returns (r: Result<Json, DecodeError>)
      requires Valid() && pos < |text| && text[pos] == '['
      modifies this
      ensures Valid() && Located(r, Rest()) == ArrayAt(old(Rest()), bigIntAsString)
      decreases |text| - pos, 0
    {
      ghost var s0 := Rest();
      var start := pos;
      Next();
      SkipWhitespace();
      if pos < |text| && text[pos] == ']' {
        Next();
        SkipWhitespace();
        return Success(JArray([]));
      }
      var acc := [];
      while true
        invariant Valid() && start < pos
        invariant ElementsAt(Rest(), bigIntAsString, acc) == ArrayAt(s0, bigIntAsString)
        decreases |text| - pos
      {
        var v := HandleValue();
        if v.Failure? {
          return Failure(v.error);
        }
        SkipWhitespace();
        if pos == |text| {
          return Failure(DecodeError(UnexpectedEnd, 0));
        }
        var c := text[pos];
        if c == ',' {
          Next();
          SkipWhitespace();
          acc := acc + [v.value];
        } else if c == ']' {
          Next();
          SkipWhitespace();
          return Success(JArray(acc + [v.value]));
        } else {
          return Failure(DecodeError(UnexpectedChar(c), |text| - pos));
        }
      }
    }

    /** A whole document from the cursor: whitespace, one value, whitespace, then the end of the
        input; the value is read by the value rule. */
    method HandleRoot() returns (r: Result<Json, DecodeError>)
      requires Valid()
      modifies this
      ensures Valid() && r == Decode(old(Rest()), bigIntAsString)
      ensures r.Success? ==> Rest() == []
    {
      ghost var s0 := Rest();
      SkipWhitespace();
      ghost var t := Rest();
      var v := HandleValue();
      if v.Failure? {
        assert ValueAt(t, bigIntAsString) == Failure(v.error);
        return Failure(v.error);
      }
      assert Decode(s0, bigIntAsString) == Finish(v.value, SkipWs(Rest()));
      r := HandleTrailing(v.value);
    }

    /** What follows the document's value: only whitespace may remain. */
    method HandleTrailing(value: Json) returns (r: Result<Json, DecodeError>)
      requires Valid()
      modifies this
      ensures Valid() && r == Finish(value, SkipWs(old(Rest())))
      ensures r.Success? ==> Rest() == []
    {
      SkipWhitespace();
      if pos < |text| {
        assert Rest()[0] == text[pos] && |Rest()| == |text| - pos;
        return Failure(DecodeError(UnexpectedChar(text[pos]), |text| - pos));
      }
      return Success(value);
    }

    /** The object rule, from '{' to the whitespace after the closing '}'. */
    method HandleObject() returns (r: Result<Json, DecodeError>)
      requires Valid() && pos < |text| && text[pos] == '{'
      modifies this
      ensures Valid() && Located(r, Rest()) == ObjectAt(old(Rest()), bigIntAsString)
      decreases |text| - pos, 0
    {
      ghost var s0 := Rest();
      var start := pos;
      Next();
      SkipWhitespace();
      if pos < |text| && text[pos] == '}' {
        Next();
        SkipWhitespace();
        return Success(JObject([]));
      }
      var acc := [];
      while true
        invariant Valid() && start < pos
        invariant MembersAt(Rest(), bigIntAsString, acc) == ObjectAt(s0, bigIntAsString)
        decreases |text| - pos
      {
        var members, closed := HandleMember(acc);
        if members.Failure? {
          return Failure(members.error);
        }
        if closed {
          return Success(JObject(members.value));
        }
        acc := members.value;
      }
    }

    /** A member's name, the ':' and its value, then the ',' or the closing '}' (`closed`);
        answers the members with this one put in. */
    method HandleMember(acc: seq<(string, Json)>)
      returns (r: Result<seq<(string, Json)>, DecodeError>, closed: bool)
      requires Valid()
      modifies this
      ensures Valid()
      ensures r.Success? ==> |Rest()| < |old(Rest())|
      ensures r.Success? && !closed ==>
        MembersAt(old(Rest()), bigIntAsString, acc) == MembersAt(Rest(), bigIntAsString, r.value)
      ensures r.Success? && closed ==>
        MembersAt(old(Rest()), bigIntAsString, acc) == Success(Parsed(JObject(r.value), Rest()))
      ensures r.Failure? ==> MembersAt(old(Rest()), bigIntAsString, acc) == Failure(r.error)
      decreases |text| - pos, 3
    {
      ghost var m0 := Rest();
      closed := false;
      if pos == |text| {
        return Failure(DecodeError(UnexpectedEnd, 0)), false;
      }
      if text[pos] != '"' {
        return Failure(DecodeError(UnexpectedChar(text[pos]), |text| - pos)), false;
      }
      var name := HandleString();
      if name.Failure? {
        return Failure(name.error), false;
      }
      ghost var n0 := Rest();
      assert StringAt(m0) == Success(Parsed(name.value, n0));
      SkipWhitespace();
      if pos == |text| {
        return Failure(DecodeError(UnexpectedEnd, 0)), false;
      }
      if text[pos] != ':' {
        return Failure(DecodeError(UnexpectedChar(text[pos]), |text| - pos)), false;
      }
      ghost var u := Rest();
      Next();
      SkipWhitespace();
      assert Rest() == SkipWs(u[1..]) && u == SkipWs(n0);
      assert MembersAt(m0, bigIntAsString, acc) == MemberValueAt(Rest(), bigIntAsString, acc, name.value);
      r, closed := HandleMemberValue(acc, name.value);
    }

    /** A member's value, then the ',' before the next member or the closing '}' (`closed`);
        answers the members with this one put in. */
    method HandleMemberValue(acc: seq<(string, Json)>, name: string)
      returns (r: Result<seq<(string, Json)>, DecodeError>, closed: bool)
      requires Valid()
      modifies this
      ensures Valid()
      ensures r.Success? ==> |Rest()| < |old(Rest())|
      ensures r.Success? && !closed ==>
        MemberValueAt(old(Rest()), bigIntAsString, acc, name) == MembersAt(Rest(), bigIntAsString, r.value)
      ensures r.Success? && closed ==>
        MemberValueAt(old(Rest()), bigIntAsString, acc, name) == Success(Parsed(JObject(r.value), Rest()))
      ensures r.Failure? ==> MemberValueAt(old(Rest()), bigIntAsString, acc, name) == Failure(r.error)
      decreases |text| - pos, 2
    {
      ghost var s0 := Rest();
      closed := false;
      var v := HandleValue();
      if v.Failure? {
        assert ValueAt(s0, bigIntAsString) == Failure(v.error);
        return Failure(v.error), false;
      }
      ghost var p := Rest();
      SkipWhitespace();
      var members := Put(acc, name, v.value);
      MemberValueCases(s0, bigIntAsString, acc, name, v.value, p);
      if pos == |text| {
        return Failure(DecodeError(UnexpectedEnd, 0)), false;
      }
      var c := text[pos];
      if c == ',' {
        Next();
        SkipWhitespace();
        return Success(members), false;
      } else if c == '}' {
        Next();
        SkipWhitespace();
        return Success(members), true;
      }
      assert Rest()[0] == c && |Rest()| == |text| - pos;
      return Failure(DecodeError(UnexpectedChar(c), |text| - pos)), false;
    }
  }

  /** An outcome as a rule reports it: no error and the stored result, or the error raised. */
  function Outcome<T>(err: Option<DecodeError>, result: T, rest: string): Result<Parsed<T>, DecodeError> {
    if err.None? then Success(Parsed(result, rest)) else Failure(err.value)
  }

  /** The number rule object: its result is 0 until a number is read. */
  class NumberRule {
    var result: Number

    constructor()
      ensures result == IntNum(0)
    {
      result := IntNum(0);
    }

    /** Reads a number at the cursor; on an error the result keeps its previous value. */
    method Handle(context: Context) returns (err: Option<DecodeError>)
      requires context.Valid()
      modifies this, context
      ensures context.Valid()
      ensures Outcome(err, result, context.Rest()) == NumberAt(old(context.Rest()), context.bigIntAsString)
      ensures err.Some? ==> result == old(result)
    {
      var r := context.HandleNumber();
      match r
      case Success(n) =>
        result := n;
        return None;
      case Failure(e) =>
        return Some(e);
    }
  }

  /** The value rule object: its result is null until a value is read. */
  class ValueRule {
    var result: Json

    constructor()
      ensures result == JNull
    {
      result := JNull;
    }

    /** Reads one value at the cursor; on an error the result keeps its previous value. */
    method Handle(context: Context) returns (err: Option<DecodeError>)
      requires context.Valid()
      modifies this, context
      ensures context.Valid()
      ensures Outcome(err, result, context.Rest()) == ValueAt(old(context.Rest()), context.bigIntAsString)
      ensures err.Some? ==> result == old(result)
    {
      var r := context.HandleValue();
      match r
      case Success(v) =>
        result := v;
        return None;
      case Failure(e) =>
        return Some(e);
    }
  }

  /** The rule for a whole document, `ws value ws` with nothing after it. */
  class RootRule {
    var result: Json

    constructor()
      ensures result == JNull
    {
      result := JNull;
    }

    /** Reads the document from the cursor to the end of the input. The result is assigned only
        once the whole input has been read, so a failed decoding leaves it untouched. */
    method Handle(context: Context) returns (err: Option<DecodeError>)
      requires context.Valid()
      modifies this, context
      ensures context.Valid()
      ensures err.None? ==> context.Rest() == [] && Decode(old(context.Rest()), context.bigIntAsString) == Success(result)
      ensures err.Some? ==> Decode(old(context.Rest()), context.bigIntAsString) == Failure(err.value)
      ensures err.Some? ==> result == old(result)
    {
      var r := context.HandleRoot();
      match r
      case Success(v) =>
        result := v;
        return None;
      case Failure(e) =>
        return Some(e);
    }
  }
}
