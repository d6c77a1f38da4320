/** A header field whose value is a time: its name must be a token (section 3.2.6 of RFC 7230), and
    its value is rendered in the IMF-fixdate form of section 7.1.1.1 of RFC 7231 after the time is
    shifted from local time to GMT by the format's offset. */
module HttpDate {
  import opened Wrappers
  import opened Text
  import opened Calendar
  import opened CalendarSerial
  import opened Times

  /** A character allowed in a token: the visible characters other than the delimiters. */
  predicate IsTokenChar(c: char) {
    ('a' <= c <= 'z') || ('A' <= c <= 'Z') || ('0' <= c <= '9') ||
    c == '!' || c == '#' || c == '$' || c == '%' || c == '&' || c == '\'' || c == '*' ||
    c == '+' || c == '-' || c == '.' || c == '^' || c == '_' || c == '`' || c == '|' || c == '~'
  }

  /** A token: one or more token characters. */
  predicate IsToken(s: string) {
    |s| > 0 && forall k :: 0 <= k < |s| ==> IsTokenChar(s[k])
  }

  /** The names IMF-fixdate uses for the days of the week, Sunday first, and for the months. */
  const DayNames: seq<string> := ["Sun", "Mon", "Tue", "Wed", "Thu", "Fri", "Sat"]
  const MonthNames: seq<string> := ["Jan", "Feb", "Mar", "Apr", "May", "Jun", "Jul", "Aug", "Sep", "Oct", "Nov", "Dec"]

  /** The time written in GMT: local time minus the offset, in minutes, that the format carries
      (-540 for a clock nine hours ahead of GMT). */
  function ToGmt(t: Time, offset: int): (u: Time)
    requires InRange(t) && t.kind == TimestampType
    ensures InRange(u) && u.kind == TimestampType
  {
    AddField(t, Minute, offset)
  }

  /** The IMF-fixdate text: "Sun, 06 Nov 1994 08:49:37 GMT". */
  function FixDate(u: Time): (r: string)
    requires InRange(u)
  {
    DayNames[GetDay(u)] + ", " + ZeroPad(u.date, 2) + " " + MonthNames[u.month - 1] + " " + ZeroPad(u.year, 4)
      + " " + ZeroPad(u.hour, 2) + ":" + ZeroPad(u.minute, 2) + ":" + ZeroPad(u.second, 2) + " GMT"
  }

  /** An HTTP-date header: its name, its time and the offset of the format that renders it. */
  datatype HttpDateField = HttpDateField(name: string, time: Time, offset: int)

  /** The constructor: a name that is not a token is rejected. */
  function NewHttpDate(name: string, time: Time, offset: int): (r: Result<HttpDateField, string>)
    requires InRange(time) && time.kind == TimestampType
    ensures r.Success? <==> IsToken(name)
    ensures r.Success? ==> r.value.name == name && r.value.time == time && r.value.offset == offset
  {
    if IsToken(name) then Success(HttpDateField(name, time, offset)) else Failure(name)
  }

  /** getName: the name the header was built with. */
  function GetName(h: HttpDateField): string {
    h.name
  }

  /** format: the time shifted to GMT, as IMF-fixdate. */
  function Format(h: HttpDateField): string
    requires InRange(h.time) && h.time.kind == TimestampType
  {
    FixDate(ToGmt(h.time, h.offset))
  }

  /** The GMT time is the local time moved by the offset, up to whole 10000-year cycles. */
  lemma ToGmtShift(t: Time, offset: int)
    requires InRange(t) && t.kind == TimestampType
    ensures SameSecond(SecondSerial(ToGmt(t, offset)), SecondSerial(t) + 60 * offset)
  {
    AddMovesInstant(t, Minute, offset);
  }

  /** The layout of IMF-fixdate: each field at a fixed place. */
  lemma Layout(w: string, dd: string, mon: string, yyyy: string, hh: string, mm: string, ss: string)
    requires |w| == 3 && |dd| == 2 && |mon| == 3 && |yyyy| == 4 && |hh| == 2 && |mm| == 2 && |ss| == 2
    ensures var r := w + ", " + dd + " " + mon + " " + yyyy + " " + hh + ":" + mm + ":" + ss + " GMT";
            |r| == 29 && r[..3] == w && r[3..5] == ", " && r[5..7] == dd && r[8..11] == mon &&
            r[12..16] == yyyy && r[17..19] == hh && r[20..22] == mm && r[23..25] == ss && r[25..] == " GMT"
  {
  }

  /** Every name of a day or a month is three letters long. */
  lemma NameLengths()
    ensures forall k :: 0 <= k < 7 ==> |DayNames[k]| == 3
    ensures forall k :: 0 <= k < 12 ==> |MonthNames[k]| == 3
  {
  }

  /** IMF-fixdate is fixed-width: 29 characters, the weekday's name first, the date, the month's
      name, the four-digit year and the two-digit clock fields each at a fixed place, where they
      read back as the time's fields, and " GMT" at the end. */
  lemma FixDateShape(u: Time)
    requires InRange(u)
    ensures |FixDate(u)| == 29 && FixDate(u)[..3] == DayNames[GetDay(u)] && FixDate(u)[25..] == " GMT"
    ensures DigitsValue(FixDate(u)[5..7]) == u.date && FixDate(u)[8..11] == MonthNames[u.month - 1]
    ensures DigitsValue(FixDate(u)[12..16]) == u.year
    ensures DigitsValue(FixDate(u)[17..19]) == u.hour && DigitsValue(FixDate(u)[20..22]) == u.minute
    ensures DigitsValue(FixDate(u)[23..25]) == u.second
  {
    assert Pow10(4) == 10000 && Pow10(2) == 100 by {
      assert Pow10(1) == 10;
    }
    assert |ZeroPad(u.date, 2)| == 2 && DigitsValue(ZeroPad(u.date, 2)) == u.date by {
      ZeroPadRoundTrip(u.date, 2);
    }
    assert |ZeroPad(u.year, 4)| == 4 && DigitsValue(ZeroPad(u.year, 4)) == u.year by {
      ZeroPadRoundTrip(u.year, 4);
    }
    assert |ZeroPad(u.hour, 2)| == 2 && DigitsValue(ZeroPad(u.hour, 2)) == u.hour by {
      ZeroPadRoundTrip(u.hour, 2);
    }
    assert |ZeroPad(u.minute, 2)| == 2 && DigitsValue(ZeroPad(u.minute, 2)) == u.minute by {
      ZeroPadRoundTrip(u.minute, 2);
    }
    assert |ZeroPad(u.second, 2)| == 2 && DigitsValue(ZeroPad(u.second, 2)) == u.second by {
      ZeroPadRoundTrip(u.second, 2);
    }
    NameLengths();
    Layout(DayNames[GetDay(u)], ZeroPad(u.date, 2), MonthNames[u.month - 1], ZeroPad(u.year, 4),
           ZeroPad(u.hour, 2), ZeroPad(u.minute, 2), ZeroPad(u.second, 2));
  }

  /** The header names of the tests: "Valid-Name" is a token, "Invalid/Name" is not. */
  lemma NameVectors()
    ensures IsToken("Valid-Name") && IsToken("Last-Modified")
    ensures !IsToken("Invalid/Name")
  {
    assert "Invalid/Name"[7] == '/';
  }
}
