/** SimpleFormat: a date pattern such as "Y/m/d H:i" split into pattern letters and literal runs,
    a time value rendered through it, and a text read back through it. */
module SimpleFormat {
  import opened Wrappers
  import opened Text
  import opened Calendar
  import opened Times

  /** The letters that stand for a field: the eleven numeric ones and E, the name of the weekday. */
  predicate IsPatternLetter(c: char) {
    c == 'Y' || c == 'm' || c == 'n' || c == 'd' || c == 'j' || c == 'H' ||
    c == 'G' || c == 'i' || c == 'f' || c == 's' || c == 'b' || c == 'E'
  }

  /** A part of a split pattern that is a single pattern letter. */
  predicate IsLetterPart(p: string) {
    |p| == 1 && IsPatternLetter(p[0])
  }

  // ---------------------------------------------------------------------------------------------
  // The weekday names

  datatype DayListError = WrongCount(count: nat) | EmptyDay(index: nat)

  /** The first empty name among entries i..6, if any. */
  function FirstEmpty(days: seq<string>, i: nat): (r: Option<nat>)
    requires i <= 7 <= |days|
    ensures r.Some? ==> i <= r.value < 7 && days[r.value] == "" && forall j :: i <= j < r.value ==> days[j] != ""
    ensures r.None? ==> forall j :: i <= j < 7 ==> days[j] != ""
    decreases 7 - i
  {
    if i == 7 then None else if days[i] == "" then Some(i) else FirstEmpty(days, i + 1)
  }

  /** The weekday names, Sunday first: the first seven entries, rejected when there are fewer than
      seven or one of them is empty; entries after the seventh are ignored. */
  function InitDayList(days: seq<string>): (r: Result<seq<string>, DayListError>)
    ensures r.Success? <==> 7 <= |days| && forall i :: 0 <= i < 7 ==> days[i] != ""
    ensures r.Success? ==> r.value == days[..7]
    ensures |days| < 7 ==> r == Failure(WrongCount(|days|))
    ensures r.Failure? && 7 <= |days| ==> r.error.EmptyDay? && r.error.index < 7 && days[r.error.index] == ""
                                          && forall j :: 0 <= j < r.error.index ==> days[j] != ""
  {
    if |days| < 7 then Failure(WrongCount(|days|))
    else match FirstEmpty(days, 0)
      case Some(i) => Failure(EmptyDay(i))
      case None => Success(days[..7])
  }

  /** The weekday names a format gets when it is given none, Sunday first. */
  const DefaultDays: seq<string> := ["Sun", "Mon", "Tue", "Wed", "Thu", "Fri", "Sat"]

  /** The default names are accepted as they are. */
  lemma DefaultDaysAccepted()
    ensures InitDayList(DefaultDays) == Success(DefaultDays)
  {
    assert |DefaultDays| == 7 && DefaultDays[..7] == DefaultDays;
    assert forall i :: 0 <= i < 7 ==> DefaultDays[i] != "";
  }

  // ---------------------------------------------------------------------------------------------
  // Splitting a pattern (createContext)

  /** The state of the split after a prefix of the pattern: the finished parts, the literal run
      being collected and whether the next character is escaped. */
  datatype Scan = Scan(parts: seq<string>, current: string, escaped: bool)

  /** One character of the pattern: an escaped character and a backslash join the literal run, an
      unescaped pattern letter ends the run and becomes a part of its own, any other character
      joins the run. */
  function Step(st: Scan, c: char): Scan {
    if st.escaped then Scan(st.parts, st.current + [c], false)
    else if c == '\\' then Scan(st.parts, st.current + [c], true)
    else if IsPatternLetter(c) then
      Scan((if |st.current| > 0 then st.parts + [st.current] else st.parts) + [[c]], "", false)
    else Scan(st.parts, st.current + [c], false)
  }

  /** The state after the whole of `s`, one character at a time from the left. */
  function Run(s: string): Scan
    decreases |s|
  {
    if |s| == 0 then Scan([], "", false) else Step(Run(s[..|s| - 1]), s[|s| - 1])
  }

  /** The last literal run, if any, closes the list of parts. */
  function Finish(st: Scan): seq<string> {
    if |st.current| > 0 then st.parts + [st.current] else st.parts
  }

  /** The parts of a pattern. */
  function Parts(s: string): seq<string> {
    Finish(Run(s))
  }

  /** The parts written one after another. */
  function Flatten(ps: seq<string>): string
    decreases |ps|
  {
    if |ps| == 0 then "" else Flatten(ps[..|ps| - 1]) + ps[|ps| - 1]
  }

  /** The letters of the parts that are single pattern letters, in order. */
  function LetterParts(ps: seq<string>): seq<char>
    decreases |ps|
  {
    if |ps| == 0 then []
    else LetterParts(ps[..|ps| - 1]) + (if IsLetterPart(ps[|ps| - 1]) then [ps[|ps| - 1][0]] else [])
  }

  /** The number of backslashes `s` ends with. */
  function TrailingBackslashes(s: string): nat
    decreases |s|
  {
    if |s| > 0 && s[|s| - 1] == '\\' then 1 + TrailingBackslashes(s[..|s| - 1]) else 0
  }

  /** The pattern letters of `s` that no backslash escapes: those after an even number of
      backslashes, in order. */
  function UnescapedLetters(s: string): seq<char>
    decreases |s|
  {
    if |s| == 0 then []
    else
      var p := s[..|s| - 1];
      UnescapedLetters(p) + (if TrailingBackslashes(p) % 2 == 0 && IsPatternLetter(s[|s| - 1]) then [s[|s| - 1]] else [])
  }

  /** The next character is escaped exactly after an odd number of trailing backslashes. */
  lemma {:induction false} RunEscaped(s: string)
    ensures Run(s).escaped <==> TrailingBackslashes(s) % 2 == 1
    decreases |s|
  {
    if |s| > 0 {
      RunEscaped(s[..|s| - 1]);
    }
  }

  /** One step keeps the finished parts and the run, written out, equal to the text read. */
  lemma StepFlatten(st: Scan, c: char)
    ensures Flatten(Step(st, c).parts) + Step(st, c).current == Flatten(st.parts) + st.current + [c]
  {
    var r := Step(st, c);
    if !st.escaped && c != '\\' && IsPatternLetter(c) {
      var ps := if |st.current| > 0 then st.parts + [st.current] else st.parts;
      assert r.parts == ps + [[c]] && r.current == "";
      FlattenSnoc(ps, [c]);
      assert Flatten(ps) == Flatten(st.parts) + st.current by {
        if |st.current| > 0 {
          FlattenSnoc(st.parts, st.current);
        }
      }
    } else {
      assert r.parts == st.parts && r.current == st.current + [c];
    }
  }

  /** Flattening a list with one more part appends that part. */
  lemma FlattenSnoc(ps: seq<string>, x: string)
    ensures Flatten(ps + [x]) == Flatten(ps) + x
  {
    assert (ps + [x])[..|ps|] == ps;
  }

  /** The finished parts and the run being collected spell the prefix read so far. */
  lemma {:induction false} RunFlatten(s: string)
    ensures Flatten(Run(s).parts) + Run(s).current == s
    decreases |s|
  {
    if |s| > 0 {
      var p := s[..|s| - 1];
      var c := s[|s| - 1];
      RunFlatten(p);
      StepFlatten(Run(p), c);
      assert s == p + [c];
    }
  }

  /** No finished part is empty; the run being collected is never a lone pattern letter, and it
      holds the backslash whenever the next character is escaped. */
  lemma {:induction false} RunShape(s: string)
    ensures forall k :: 0 <= k < |Run(s).parts| ==> Run(s).parts[k] != ""
    ensures !IsLetterPart(Run(s).current)
    ensures Run(s).escaped ==> |Run(s).current| > 0
    decreases |s|
  {
    if |s| > 0 {
      RunShape(s[..|s| - 1]);
    }
  }

  /** One step adds the character to the letter parts exactly when it is an unescaped pattern
      letter. */
  lemma StepLetters(st: Scan, c: char)
    requires !IsLetterPart(st.current)
    ensures LetterParts(Step(st, c).parts) ==
              LetterParts(st.parts) + (if !st.escaped && IsPatternLetter(c) then [c] else [])
  {
    if !st.escaped && c != '\\' && IsPatternLetter(c) {
      var ps := if |st.current| > 0 then st.parts + [st.current] else st.parts;
      assert (ps + [[c]])[..|ps|] == ps;
      if |st.current| > 0 {
        assert ps[..|ps| - 1] == st.parts;
      }
    }
  }

  /** The parts that are pattern letters are exactly the unescaped pattern letters of the prefix. */
  lemma {:induction false} RunLetters(s: string)
    ensures LetterParts(Run(s).parts) == UnescapedLetters(s)
    decreases |s|
  {
    if |s| > 0 {
      var p := s[..|s| - 1];
      RunLetters(p);
      RunEscaped(p);
      RunShape(p);
      StepLetters(Run(p), s[|s| - 1]);
    }
  }

  /** Written one after another, the parts give back the pattern. */
  lemma PartsFlatten(s: string)
    ensures Flatten(Parts(s)) == s
  {
    RunFlatten(s);
    var st := Run(s);
    if |st.current| > 0 {
      assert (st.parts + [st.current])[..|st.parts|] == st.parts;
    }
  }

  /** No part is empty. */
  lemma PartsNonEmpty(s: string)
    ensures forall k :: 0 <= k < |Parts(s)| ==> Parts(s)[k] != ""
  {
    RunShape(s);
  }

  /** Every unescaped pattern letter is a part of its own, in order, and no other part is a lone
      pattern letter: in particular an escaped letter never is. */
  lemma PartsLetters(s: string)
    ensures LetterParts(Parts(s)) == UnescapedLetters(s)
  {
    RunLetters(s);
    RunShape(s);
    var st := Run(s);
    if |st.current| > 0 {
      assert (st.parts + [st.current])[..|st.parts|] == st.parts;
    }
  }

  /** A backslash that is not itself escaped puts the character after it into the literal run,
      whatever that character is. */
  lemma EscapeKeepsLiteral(s: string, c: char)
    requires TrailingBackslashes(s) % 2 == 0
    ensures Run(s + ['\\', c]) == Scan(Run(s).parts, Run(s).current + ['\\', c], false)
  {
    RunEscaped(s);
    var t := s + ['\\', c];
    assert t[..|t| - 1] == s + ['\\'];
    assert (s + ['\\'])[..|s|] == s;
  }

  /** An unescaped pattern letter closes the literal run before it and is a part of its own. */
  lemma LetterSplits(s: string, c: char)
    requires TrailingBackslashes(s) % 2 == 0 && IsPatternLetter(c)
    ensures Parts(s + [c]) == Finish(Run(s)) + [[c]]
  {
    RunEscaped(s);
    assert (s + [c])[..|s|] == s;
  }

  /** createContext: the pattern split by one pass over its characters. */
  method CreateContext(format: string) returns (parts: seq<string>)
    ensures parts == Parts(format)
    ensures Flatten(parts) == format
    ensures forall k :: 0 <= k < |parts| ==> parts[k] != ""
    ensures LetterParts(parts) == UnescapedLetters(format)
  {
    var result: seq<string> := [];
    var current := "";
    var escaped := false;
    var i := 0;
    while i < |format|
      invariant 0 <= i <= |format|
      invariant Run(format[..i]) == Scan(result, current, escaped)
    {
      var chr := format[i];
      assert format[..i + 1][..i] == format[..i];
      if escaped {
        current := current + [chr];
        escaped := false;
      } else if chr == '\\' {
        current := current + [chr];
        escaped := true;
      } else if IsPatternLetter(chr) {
        if |current| > 0 {
          result := result + [current];
          current := "";
        }
        result := result + [[chr]];
      } else {
        current := current + [chr];
      }
      i := i + 1;
    }
    assert format[..i] == format;
    if |current| > 0 {
      result := result + [current];
    }
    parts := result;
    PartsFlatten(format);
    PartsNonEmpty(format);
    PartsLetters(format);
  }

  // ---------------------------------------------------------------------------------------------
  // Literal text

  /** PHP's `stripslashes`: a backslash is dropped and the character after it kept, except that
      "\0" stands for the NUL character; a lone backslash at the end is dropped. */
  function StripSlashes(s: string): string
    decreases |s|
  {
    if |s| == 0 then ""
    else if s[0] != '\\' then [s[0]] + StripSlashes(s[1..])
    else if |s| == 1 then ""
    else (if s[1] == '0' then [0 as char] else [s[1]]) + StripSlashes(s[2..])
  }

  /** PHP's `addslashes`: a backslash before each quote, double quote and backslash, and "\0" for
      the NUL character. */
  function AddSlashes(s: string): (r: string)
    ensures |r| >= |s|
    decreases |s|
  {
    if |s| == 0 then ""
    else if s[0] == '\'' || s[0] == '"' || s[0] == '\\' then ['\\', s[0]] + AddSlashes(s[1..])
    else if s[0] == 0 as char then ['\\', '0'] + AddSlashes(s[1..])
    else [s[0]] + AddSlashes(s[1..])
  }

  /** stripslashes undoes addslashes. */
  lemma {:induction false} StripAddSlashes(s: string)
    ensures StripSlashes(AddSlashes(s)) == s
    decreases |s|
  {
    if |s| > 0 {
      StripAddSlashes(s[1..]);
      var r := AddSlashes(s);
      if s[0] == '\'' || s[0] == '"' || s[0] == '\\' || s[0] == 0 as char {
        assert r[2..] == AddSlashes(s[1..]);
      } else {
        assert r[1..] == AddSlashes(s[1..]);
      }
    }
  }

  /** Text without backslashes is kept as it is. */
  lemma {:induction false} StripPlain(s: string)
    requires forall k :: 0 <= k < |s| ==> s[k] != '\\'
    ensures StripSlashes(s) == s
    decreases |s|
  {
    if |s| > 0 {
      StripPlain(s[1..]);
    }
  }

  // ---------------------------------------------------------------------------------------------
  // Rendering (formatKey, formatTimestamp, formatDate, formatDatetime)

  /** The field a numeric pattern letter renders. */
  function KeyField(key: char): Field
    requires IsPatternLetter(key) && key != 'E'
  {
    if key == 'Y' then Year
    else if key == 'm' || key == 'n' then Month
    else if key == 'd' || key == 'j' then Date
    else if key == 'H' || key == 'G' then Hour
    else if key == 'i' || key == 'f' then Minute
    else Second
  }

  /** The letters whose field is zero-padded: Y to four digits, the others to two. */
  predicate IsPadded(key: char) {
    key == 'Y' || key == 'm' || key == 'd' || key == 'H' || key == 'i' || key == 's'
  }

  /** formatKey: a numeric letter renders its field in decimal, padded with zeros for Y, m, d, H,
      i and s; E renders the weekday's name, Sunday first. */
  function FormatKey(t: Time, key: char, days: seq<string>): (r: string)
    requires InRange(t) && IsPatternLetter(key) && |days| == 7
  {
    if key == 'E' then days[GetDay(t)]
    else
      var v := Get(t, KeyField(key));
      if key == 'Y' then ZeroPad(v, 4)
      else if IsPadded(key) then ZeroPad(v, 2)
      else Decimal(v)
  }

  /** What a numeric letter renders reads back as its field: Y as exactly four digits, the other
      padded letters as exactly two, the unpadded ones without a leading zero. */
  lemma FormatKeyReadsBack(t: Time, key: char, days: seq<string>)
    requires InRange(t) && t.kind == TimestampType && IsPatternLetter(key) && key != 'E' && |days| == 7
    ensures AllDigits(FormatKey(t, key, days)) && DigitsValue(FormatKey(t, key, days)) == Get(t, KeyField(key))
    ensures key == 'Y' ==> |FormatKey(t, key, days)| == 4
    ensures IsPadded(key) && key != 'Y' ==> |FormatKey(t, key, days)| == 2
    ensures !IsPadded(key) ==> |FormatKey(t, key, days)| == 1 || FormatKey(t, key, days)[0] != '0'
  {
    var v := Get(t, KeyField(key));
    assert Pow10(4) == 10000 && Pow10(2) == 100 by {
      assert Pow10(1) == 10;
    }
    if key == 'Y' {
      ZeroPadRoundTrip(v, 4);
    } else if IsPadded(key) {
      ZeroPadRoundTrip(v, 2);
    } else {
      DecimalDigits(v);
      DecimalRoundTrip(v);
    }
  }

  /** E renders the name of the weekday, Sunday first: `k` days later it renders the name `k`
      places further on in the week. */
  lemma FormatKeyWeekday(t: Time, k: int, days: seq<string>)
    requires InRange(t) && |days| == 7
    ensures FormatKey(AddField(t, Date, k), 'E', days) == days[(GetDay(t) + k) % 7]
  {
    AddDaysWeekday(t, k);
  }

  /** One part: a pattern letter through formatKey, literal text through stripslashes. */
  function FormatPart(t: Time, part: string, days: seq<string>): string
    requires InRange(t) && |days| == 7
  {
    if IsLetterPart(part) then FormatKey(t, part[0], days) else StripSlashes(part)
  }

  /** The parts rendered one after another. */
  function Render(t: Time, parts: seq<string>, days: seq<string>): string
    requires InRange(t) && |days| == 7
    decreases |parts|
  {
    if |parts| == 0 then "" else Render(t, parts[..|parts| - 1], days) + FormatPart(t, parts[|parts| - 1], days)
  }

  /** A pattern without pattern letters and backslashes renders as itself. */
  lemma {:induction false} RenderLiteral(t: Time, s: string, days: seq<string>)
    requires InRange(t) && |days| == 7
    requires forall k :: 0 <= k < |s| ==> s[k] != '\\' && !IsPatternLetter(s[k])
    ensures Render(t, Parts(s), days) == s
  {
    NoLetterRun(s);
    StripPlain(s);
    if |s| > 0 {
      assert Parts(s) == [s];
      assert Parts(s)[..0] == [];
    }
  }

  /** A pattern without pattern letters and backslashes is collected into one literal run. */
  lemma {:induction false} NoLetterRun(s: string)
    requires forall k :: 0 <= k < |s| ==> s[k] != '\\' && !IsPatternLetter(s[k])
    ensures Run(s) == Scan([], s, false)
    decreases |s|
  {
    if |s| > 0 {
      var p := s[..|s| - 1];
      assert forall k :: 0 <= k < |p| ==> p[k] == s[k];
      NoLetterRun(p);
      assert Run(s) == Scan([], p + [s[|s| - 1]], false);
      assert p + [s[|s| - 1]] == s;
    }
  }

  /** formatTimestamp: the parts rendered in order into one text. */
  method FormatTimestamp(t: Time, parts: seq<string>, days: seq<string>) returns (result: string)
    requires InRange(t) && t.kind == TimestampType && |days| == 7
    ensures result == Render(t, parts, days)
  {
    result := "";
    var i := 0;
    while i < |parts|
      invariant 0 <= i <= |parts|
      invariant result == Render(t, parts[..i], days)
    {
      assert parts[..i + 1][..i] == parts[..i];
      result := result + FormatPart(t, parts[i], days);
      i := i + 1;
    }
    assert parts[..i] == parts;
  }

  /** formatDate and formatDatetime: the value converted to a Timestamp, then formatted. */
  method FormatValue(t: Time, parts: seq<string>, days: seq<string>) returns (result: string)
    requires InRange(t) && |days| == 7
    ensures result == Render(Convert(t, TimestampType), parts, days)
  {
    result := FormatTimestamp(Convert(t, TimestampType), parts, days);
  }

  /** Formatted through a pattern, a Date shows 0 for the hour, the minute and the second, and a
      Datetime shows 0 for the second. */
  lemma MissingFieldsZero(t: Time, key: char, days: seq<string>)
    requires InRange(t) && |days| == 7 && IsPatternLetter(key) && key != 'E'
    requires !HasField(t.kind, KeyField(key))
    ensures DigitsValue(FormatKey(Convert(t, TimestampType), key, days)) == 0
  {
    FormatKeyReadsBack(Convert(t, TimestampType), key, days);
  }

  // ---------------------------------------------------------------------------------------------
  // Reading a text back (interpret)

  /** What a part reads: a numeric letter its field, E one of the weekday names, and literal
      text itself with the backslashes stripped. */
  datatype Pattern = Numbers(key: char) | Raw(candidates: seq<string>)

  function PatternOf(part: string, days: seq<string>): Pattern {
    if IsLetterPart(part) then (if part[0] == 'E' then Raw(days) else Numbers(part[0]))
    else Raw([StripSlashes(part)])
  }

  /** PHP's `substr($s, $n)` for a count no larger than the text, and "" past its end. */
  function DropPrefix(s: string, n: nat): string {
    if n <= |s| then s[n..] else ""
  }

  /** interpret: each part in turn matches a prefix of the remaining input, which then loses that
      prefix; the matched texts in order, or the remaining input at the first part that matches
      nothing. Text left after the last part is ignored. */
  function Interpret(parts: seq<string>, input: string, days: seq<string>,
                     matcher: (Pattern, string) -> Option<string>): Result<seq<string>, string>
    decreases |parts|
  {
    if |parts| == 0 then Success([])
    else match matcher(PatternOf(parts[0], days), input)
      case None => Failure(input)
      case Some(m) =>
        match Interpret(parts[1..], DropPrefix(input, |m|), days, matcher)
        case Success(ms) => Success([m] + ms)
        case Failure(e) => Failure(e)
  }

  /** A matcher that only ever matches a prefix of its input. */
  ghost predicate MatchesPrefixes(matcher: (Pattern, string) -> Option<string>) {
    forall p: Pattern, s: string :: matcher(p, s).Some? ==> matcher(p, s).value <= s
  }

  /** With a prefix matcher, a successful read has one match per part, and the matches written one
      after another are a prefix of the input; a failed read reports a suffix of the input. */
  lemma {:induction false} InterpretConsumes(parts: seq<string>, input: string, days: seq<string>,
                                             matcher: (Pattern, string) -> Option<string>)
    requires MatchesPrefixes(matcher)
    ensures Interpret(parts, input, days, matcher).Success? ==>
              |Interpret(parts, input, days, matcher).value| == |parts| &&
              Concat(Interpret(parts, input, days, matcher).value) <= input
    ensures var r := Interpret(parts, input, days, matcher);
            r.Failure? ==> |r.error| <= |input| && input[|input| - |r.error|..] == r.error
    decreases |parts|
  {
    if |parts| > 0 {
      var mo := matcher(PatternOf(parts[0], days), input);
      if mo.Some? {
        var m := mo.value;
        assert m <= input;
        var rest := DropPrefix(input, |m|);
        assert input == m + rest;
        InterpretConsumes(parts[1..], rest, days, matcher);
        var r := Interpret(parts[1..], rest, days, matcher);
        if r.Success? {
          assert Concat([m] + r.value) == m + Concat(r.value) by {
            ConcatCons(m, r.value);
          }
        }
      }
    }
  }

  /** The texts written one after another, from the left. */
  function Concat(ms: seq<string>): string
    decreases |ms|
  {
    if |ms| == 0 then "" else ms[0] + Concat(ms[1..])
  }

  lemma ConcatCons(m: string, ms: seq<string>)
    ensures Concat([m] + ms) == m + Concat(ms)
  {
    assert ([m] + ms)[1..] == ms;
  }

  /** interpret as a loop over the parts, shrinking the input. */
  method InterpretText(parts: seq<string>, text: string, days: seq<string>,
                       matcher: (Pattern, string) -> Option<string>) returns (r: Result<seq<string>, string>)
    ensures r == Interpret(parts, text, days, matcher)
  {
    var input := text;
    var matched: seq<string> := [];
    var i := 0;
    PrependNone(Interpret(parts, text, days, matcher));
    while i < |parts|
      invariant 0 <= i <= |parts|
      invariant Interpret(parts, text, days, matcher) == Prepend(matched, Interpret(parts[i..], input, days, matcher))
    {
      var m := matcher(PatternOf(parts[i], days), input);
      assert parts[i..][0] == parts[i] && parts[i..][1..] == parts[i + 1..];
      if m.None? {
        return Failure(input);
      }
      PrependAppend(matched, m.value, Interpret(parts[i + 1..], DropPrefix(input, |m.value|), days, matcher));
      matched := matched + [m.value];
      input := DropPrefix(input, |m.value|);
      i := i + 1;
    }
    assert Interpret(parts[i..], input, days, matcher) == Success([]);
    assert matched + [] == matched;
    r := Success(matched);
  }

  /** The matches already made, put in front of the outcome of the rest. */
  function Prepend(ms: seq<string>, r: Result<seq<string>, string>): Result<seq<string>, string> {
    match r
    case Success(rest) => Success(ms + rest)
    case Failure(e) => Failure(e)
  }

  lemma PrependNone(r: Result<seq<string>, string>)
    ensures Prepend([], r) == r
  {
    if r.Success? {
      assert [] + r.value == r.value;
    }
  }

  lemma PrependAppend(ms: seq<string>, m: string, r: Result<seq<string>, string>)
    ensures Prepend(ms, Prepend([m], r)) == Prepend(ms + [m], r)
  {
    if r.Success? {
      assert ms + ([m] + r.value) == (ms + [m]) + r.value;
    }
  }

  // ---------------------------------------------------------------------------------------------
  // The format object

  /** A SimpleFormat: its pattern, its weekday names and the pattern's parts. */
  datatype Format = Format(format: string, dayList: seq<string>, context: seq<string>)

  /** The constructor: the weekday names are checked and the pattern split once. */
  method NewFormat(pattern: string, days: seq<string>) returns (r: Result<Format, DayListError>)
    ensures r.Success? <==> InitDayList(days).Success?
    ensures r.Success? ==> r.value == Format(pattern, days[..7], Parts(pattern))
    ensures r.Failure? ==> r.error == InitDayList(days).error
  {
    var d := InitDayList(days);
    if d.Failure? {
      return Failure(d.error);
    }
    var context := CreateContext(pattern);
    r := Success(Format(pattern, d.value, context));
  }

  /** The constructor given only a pattern: it takes the default weekday names and cannot fail. */
  method NewDefaultFormat(pattern: string) returns (f: Format)
    ensures f == Format(pattern, DefaultDays, Parts(pattern))
  {
    DefaultDaysAccepted();
    var r := NewFormat(pattern, DefaultDays);
    assert DefaultDays[..7] == DefaultDays;
    f := r.value;
  }
}
