/** The HTTP-date of the tests: a Timestamp rendered by a format nine hours ahead of GMT. */
module HttpDateVectors {
  import opened Wrappers
  import opened Text
  import opened Calendar
  import opened CalendarSerial
  import opened Times
  import opened TimeVectors
  import opened HttpDate

  /** The local time of the tests, 2012-05-21 08:34:45, field by field. */
  predicate IsLocal(t: Time) {
    t.kind == TimestampType && t.year == 2012 && t.month == 5 && t.date == 21 &&
    t.hour == 8 && t.minute == 34 && t.second == 45
  }

  /** 2012-05-21 08:34:45 at offset -540 is 2012-05-20 23:34:45 GMT: nine hours back, across the
      date boundary. */
  lemma ShiftVector(t: Time)
    requires IsLocal(t)
    ensures IsShifted(ToGmt(t, -540))
  {
    var u := Time(TimestampType, 2012, 5, 20, 23, 34, 45);
    assert DaySerial(u) == DaySerial(t) - 1 by {
      DateShift(t, -1);
      assert t.(date := t.date + -1) == u.(hour := 8, minute := 34);
    }
    AddFieldTo(t, u, Minute, -540);
  }

  /** The time value 2012-05-20 23:34:45 GMT, field by field. */
  predicate IsShifted(u: Time) {
    u.kind == TimestampType && u.year == 2012 && u.month == 5 && u.date == 20 &&
    u.hour == 23 && u.minute == 34 && u.second == 45
  }

  /** 2012-05-20 was a Sunday in May. */
  lemma SundayVector(u: Time)
    requires IsShifted(u)
    ensures GetDay(u) == 0 && DayNames[GetDay(u)] == "Sun" && MonthNames[u.month - 1] == "May"
  {
    WeekdayOf(u, 2012, 5, 20, 734868 + DaysBeforeMonth(2012, 5) + 19, 0);
  }

  /** Two decimal digits as text. */
  function Two(d: seq<nat>): string
    requires |d| == 2 && d[0] < 10 && d[1] < 10
  {
    [DigitChar(d[0]), DigitChar(d[1])]
  }

  /** Four decimal digits as text. */
  function Four(d: seq<nat>): string
    requires |d| == 4 && d[0] < 10 && d[1] < 10 && d[2] < 10 && d[3] < 10
  {
    [DigitChar(d[0]), DigitChar(d[1]), DigitChar(d[2]), DigitChar(d[3])]
  }

  /** The IMF-fixdate text of a time value in range from the digits of its fields. */
  lemma FixDateDigits(u: Time, dd: seq<nat>, yy: seq<nat>, hh: seq<nat>, mm: seq<nat>, ss: seq<nat>)
    requires InRange(u)
    requires |dd| == 2 && dd[0] < 10 && dd[1] < 10 && u.date == 10 * dd[0] + dd[1]
    requires |yy| == 4 && 1 <= yy[0] < 10 && yy[1] < 10 && yy[2] < 10 && yy[3] < 10
    requires u.year == 1000 * yy[0] + 100 * yy[1] + 10 * yy[2] + yy[3]
    requires |hh| == 2 && hh[0] < 10 && hh[1] < 10 && u.hour == 10 * hh[0] + hh[1]
    requires |mm| == 2 && mm[0] < 10 && mm[1] < 10 && u.minute == 10 * mm[0] + mm[1]
    requires |ss| == 2 && ss[0] < 10 && ss[1] < 10 && u.second == 10 * ss[0] + ss[1]
    ensures FixDate(u) == DayNames[GetDay(u)] + ", " + Two(dd) + " " + MonthNames[u.month - 1] + " "
      + Four(yy) + " " + Two(hh) + ":" + Two(mm) + ":" + Two(ss) + " GMT"
  {
    assert ZeroPad(u.date, 2) == Two(dd) by {
      PadTwo(u.date, dd[0], dd[1]);
    }
    assert ZeroPad(u.year, 4) == Four(yy) by {
      PadFour(u.year, yy[0], yy[1], yy[2], yy[3]);
    }
    assert ZeroPad(u.hour, 2) == Two(hh) by {
      PadTwo(u.hour, hh[0], hh[1]);
    }
    assert ZeroPad(u.minute, 2) == Two(mm) by {
      PadTwo(u.minute, mm[0], mm[1]);
    }
    assert ZeroPad(u.second, 2) == Two(ss) by {
      PadTwo(u.second, ss[0], ss[1]);
    }
  }

  /** The digits of that time value's fields as text. */
  lemma DigitTexts()
    ensures Two([2, 0]) == "20" && Two([2, 3]) == "23" && Two([3, 4]) == "34" && Two([4, 5]) == "45"
    ensures Four([2, 0, 1, 2]) == "2012"
  {
  }

  /** The IMF-fixdate text of that GMT time, piece by piece. */
  lemma FixDatePieces(u: Time)
    requires IsShifted(u)
    ensures FixDate(u) == DayNames[GetDay(u)] + ", " + Two([2, 0]) + " " + MonthNames[u.month - 1] + " "
      + Four([2, 0, 1, 2]) + " " + Two([2, 3]) + ":" + Two([3, 4]) + ":" + Two([4, 5]) + " GMT"
  {
    FixDateDigits(u, [2, 0], [2, 0, 1, 2], [2, 3], [3, 4], [4, 5]);
  }

  /** The IMF-fixdate text of that GMT time. */
  lemma FixDateVector(u: Time)
    requires IsShifted(u)
    ensures FixDate(u) == "Sun, 20 May 2012 23:34:45 GMT"
  {
    FixDatePieces(u);
    SundayVector(u);
    DigitTexts();
    Text29(DayNames[GetDay(u)], Two([2, 0]), MonthNames[u.month - 1],
           Four([2, 0, 1, 2]), Two([2, 3]), Two([3, 4]), Two([4, 5]));
  }

  /** format() of the header the tests build: "Sun, 20 May 2012 23:34:45 GMT". */
  lemma FormatVector(h: HttpDateField)
    requires h.name == "Last-Modified" && IsLocal(h.time) && h.offset == -540
    ensures Format(h) == "Sun, 20 May 2012 23:34:45 GMT"
  {
    ShiftVector(h.time);
    FixDateVector(ToGmt(h.time, h.offset));
  }

  /** The pieces of that text put together. */
  lemma Text29(w: string, dd: string, mon: string, yyyy: string, hh: string, mm: string, ss: string)
    requires w == "Sun" && dd == "20" && mon == "May" && yyyy == "2012" && hh == "23" && mm == "34" && ss == "45"
    ensures w + ", " + dd + " " + mon + " " + yyyy + " " + hh + ":" + mm + ":" + ss + " GMT" == "Sun, 20 May 2012 23:34:45 GMT"
  {
  }
}
