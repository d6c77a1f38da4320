/** The behaviour the Date tests fix, stated on the model: leap years, month lengths, field access by
    name, set, add and setAll with their carries and borrows, the day of the week, the order between
    kinds and the text form. */
module TimeVectors {
  import opened Wrappers
  import opened Calendar
  import opened CalendarSerial
  import opened Times
  import opened Text

  function D(y: int, m: int, d: int): Time {
    Time(DateType, y, m, d, 0, 0, 0)
  }

  lemma SetYearVectors()
    ensures SetField(D(2012, 5, 21), Year, 2013) == D(2013, 5, 21)
    ensures SetField(D(2012, 5, 21), Year, 10000) == D(0, 5, 21)
    ensures SetField(D(2012, 5, 21), Year, 999) == D(999, 5, 21)
    ensures SetField(D(2012, 5, 21), Year, -1) == D(9999, 5, 21)
  {
  }

  lemma SetMonthVectors()
    ensures SetField(D(2012, 5, 21), Month, 10) == D(2012, 10, 21)
    ensures SetField(D(2012, 5, 21), Month, 13) == D(2013, 1, 21)
    ensures SetField(D(2012, 5, 21), Month, 26) == D(2014, 2, 21)
    ensures SetField(D(2012, 5, 21), Month, 0) == D(2011, 12, 21)
    ensures SetField(D(2012, 5, 21), Month, -13) == D(2010, 11, 21)
  {
  }

  lemma SetDateForwardVectors()
    ensures SetField(D(2012, 5, 21), Date, 32) == D(2012, 6, 1)
    ensures SetField(D(2012, 5, 21), Date, 64) == D(2012, 7, 3)
  {
  }

  lemma SetDateBackVectors()
    ensures SetField(D(2012, 5, 21), Date, 0) == D(2012, 4, 30)
    ensures SetField(D(2012, 5, 21), Date, -29) == D(2012, 4, 1)
    ensures SetField(D(2012, 5, 21), Date, -59) == D(2012, 3, 2)
  {
  }

  lemma LeapYearVectors()
    ensures !IsLeapYear(2011) && IsLeapYear(2008) && !IsLeapYear(2100) && IsLeapYear(2000)
  {
  }

  lemma DateCountVectors()
    ensures DaysInMonth(2011, 7) == 31 && DaysInMonth(2009, 11) == 30
    ensures DaysInMonth(2010, 2) == 28 && DaysInMonth(2012, 2) == 29
  {
  }

  lemma AddVectors()
    ensures AddField(D(2012, 5, 21), Year, 3) == D(2015, 5, 21)
    ensures AddField(D(2012, 5, 21), Year, -3) == D(2009, 5, 21)
    ensures AddField(D(2012, 5, 21), Month, 5) == D(2012, 10, 21)
    ensures AddField(D(2012, 5, 21), Month, -5) == D(2011, 12, 21)
    ensures AddField(D(2012, 5, 21), Date, 20) == D(2012, 6, 10)
    ensures AddField(D(2012, 5, 21), Date, -30) == D(2012, 4, 21)
    ensures AddField(D(2012, 5, 21), Minute, 10) == D(2012, 5, 21)
    ensures AddField(D(2012, 5, 21), Second, -10) == D(2012, 5, 21)
  {
  }

  /** Adding a year of days, back across the leap day of 2012. */
  lemma AddYearBack(t: Time, e: Time)
    requires InRange(t) && t.kind == DateType && t.year == 2012 && t.month == 5 && t.date == 21
    requires e == t.(year := 2011)
    ensures AddField(t, Date, -366) == e
  {
    assert IsLeapYear(t.year) by {
      assert IsLeapYear(2012);
    }
    YearLater(e, t);
    AddDaysTo(t, e, -366);
  }

  /** Adding a year of days forward, with no leap day in between. */
  lemma AddYearOn(t: Time, e: Time)
    requires InRange(t) && t.kind == DateType && t.year == 2012 && t.month == 5 && t.date == 21
    requires e == t.(year := 2013)
    ensures AddField(t, Date, 365) == e
  {
    assert !IsLeapYear(e.year) by {
      assert !IsLeapYear(2013);
    }
    YearLater(t, e);
    AddDaysTo(t, e, 365);
  }

  /** The names of a setAll argument select their fields. */
  lemma Names()
    ensures FieldOf("year") == Some(Year) && FieldOf("month") == Some(Month) && FieldOf("date") == Some(Date)
  {
    FieldNameSelects(Year);
    FieldNameSelects(Month);
    FieldNameSelects(Date);
  }

  lemma SetAllYearDate(fields: seq<(string, int)>)
    requires fields == [("year", 2015), ("date", 10)]
    ensures SetAll(D(2012, 5, 21), fields) == D(2015, 5, 10)
  {
    Names();
    assert PutNamed(D(2012, 5, 21), fields) == PutNamed(D(2015, 5, 21), fields[1..]);
    assert PutNamed(D(2015, 5, 21), fields[1..]) == D(2015, 5, 10);
  }

  lemma SetAllMonthDate(fields: seq<(string, int)>)
    requires fields == [("month", 12), ("date", 31)]
    ensures SetAll(D(2012, 5, 21), fields) == D(2012, 12, 31)
  {
    Names();
    assert PutNamed(D(2012, 5, 21), fields) == PutNamed(D(2012, 12, 21), fields[1..]);
    assert PutNamed(D(2012, 12, 21), fields[1..]) == D(2012, 12, 31);
  }

  /** 2011-14-31 settles the month first, to 2012-02-31, and then the date, to 2012-03-02. */
  lemma SetAllCoarseFirst(fields: seq<(string, int)>)
    requires fields == [("year", 2011), ("month", 14), ("date", 31)]
    ensures SetAll(D(2012, 5, 21), fields) == D(2012, 3, 2)
  {
    Names();
    assert PutNamed(D(2012, 5, 21), fields) == PutNamed(D(2011, 5, 21), fields[1..]);
    assert PutNamed(D(2011, 5, 21), fields[1..]) == PutNamed(D(2011, 14, 21), fields[2..]);
    assert PutNamed(D(2011, 14, 21), fields[2..]) == D(2011, 14, 31);
  }

  /** A date given field by field. */
  predicate IsDate(t: Time, y: int, m: int, d: int) {
    t.kind == DateType && t.year == y && t.month == m && t.date == d && t.hour == 0 && t.minute == 0 && t.second == 0
  }

  lemma GetDaySunday(t: Time)
    requires IsDate(t, 1990, 4, 1)
    ensures GetDay(t) == 0
  {
    WeekdayOf(t, 1990, 4, 1, 726923, 0);
  }

  lemma GetDayMonday(t: Time)
    requires IsDate(t, 1996, 3, 18)
    ensures GetDay(t) == 1
  {
    WeekdayOf(t, 1996, 3, 18, 729101, 1);
  }

  lemma GetDayTuesday(t: Time)
    requires IsDate(t, 1999, 4, 6)
    ensures GetDay(t) == 2
  {
    WeekdayOf(t, 1999, 4, 6, 730215, 2);
  }

  lemma GetDayWednesday(t: Time)
    requires IsDate(t, 2002, 7, 10)
    ensures GetDay(t) == 3
  {
    WeekdayOf(t, 2002, 7, 10, 731406, 3);
  }

  lemma GetDayThursday(t: Time)
    requires IsDate(t, 2006, 1, 5)
    ensures GetDay(t) == 4
  {
    WeekdayOf(t, 2006, 1, 5, 732681, 4);
  }

  lemma GetDayFriday(t: Time)
    requires IsDate(t, 2008, 6, 13)
    ensures GetDay(t) == 5
  {
    WeekdayOf(t, 2008, 6, 13, 733571, 5);
  }

  lemma GetDaySaturday(t: Time)
    requires IsDate(t, 2010, 7, 24)
    ensures GetDay(t) == 6
  {
    WeekdayOf(t, 2010, 7, 24, 734342, 6);
  }

  lemma GetYearByName()
    ensures GetByName(D(2012, 5, 21), "y") == Some(2012)
    ensures GetByName(D(2012, 5, 21), "Y") == Some(2012)
    ensures GetByName(D(2012, 5, 21), "year") == Some(2012)
    ensures GetByName(D(2012, 5, 21), "YEAR") == Some(2012)
    ensures GetByName(D(2012, 5, 21), "young") == Some(2012)
    ensures GetByName(D(2012, 5, 21), "Yacht") == Some(2012)
  {
  }

  lemma GetMonthByName()
    ensures GetByName(D(2012, 5, 21), "MO") == Some(5)
    ensures GetByName(D(2012, 5, 21), "mo") == Some(5)
    ensures GetByName(D(2012, 5, 21), "Month") == Some(5)
    ensures GetByName(D(2012, 5, 21), "month") == Some(5)
    ensures GetByName(D(2012, 5, 21), "monkey") == Some(5)
  {
  }

  lemma GetDateByName()
    ensures GetByName(D(2012, 5, 21), "d") == Some(21)
    ensures GetByName(D(2012, 5, 21), "D") == Some(21)
    ensures GetByName(D(2012, 5, 21), "DATE") == Some(21)
    ensures GetByName(D(2012, 5, 21), "dog") == Some(21)
  {
  }

  /** Names of clock fields, the missing name and names of no field select nothing in a Date. */
  lemma GetInvalidName()
    ensures GetByName(D(2012, 5, 21), "m") == None
    ensures GetByName(D(2012, 5, 21), "hour") == None
    ensures GetByName(D(2012, 5, 21), "min") == None
    ensures GetByName(D(2012, 5, 21), "sec") == None
    ensures GetByName(D(2012, 5, 21), "") == None
    ensures GetByName(D(2012, 5, 21), "foo") == None
  {
  }

  /** A name that selects no field of a Date leaves it as it is, for set and for add. */
  lemma SetIgnoredName()
    ensures Set(D(2012, 5, 21), "foobar", 10) == D(2012, 5, 21)
  {
  }

  lemma AddClockName()
    ensures Add(D(2012, 5, 21), "min", 10) == D(2012, 5, 21)
    ensures Add(D(2012, 5, 21), "sec", -10) == D(2012, 5, 21)
  {
  }

  lemma AddIgnoredName()
    ensures Add(D(2012, 5, 21), "asdf", 20) == D(2012, 5, 21)
  {
  }

  lemma CompareVectors()
    ensures CompareTo(D(2012, 5, 21), D(2011, 8, 1)) > 0
    ensures CompareTo(D(2012, 5, 21), D(2012, 3, 12)) > 0
    ensures CompareTo(D(2012, 5, 21), D(2012, 5, 21)) == 0
    ensures CompareTo(D(2012, 5, 21), D(2012, 5, 30)) < 0
    ensures CompareTo(D(2012, 5, 21), D(2013, 1, 23)) < 0
    ensures CompareTo(D(2012, 5, 21), D(2011, 5, 21)) > 0
    ensures CompareTo(D(2012, 5, 21), D(2012, 10, 21)) < 0
    ensures CompareTo(D(2012, 5, 21), D(2012, 5, 24)) < 0
  {
  }

  /** A Date comes before a Datetime or Timestamp with the same date, and is after none of them. */
  lemma BeforeAfterVectors()
    ensures After(D(2012, 5, 21), D(2011, 12, 31)) && !Before(D(2012, 5, 21), D(2011, 12, 31))
    ensures !After(D(2012, 5, 21), D(2013, 3, 1)) && Before(D(2012, 5, 21), D(2013, 3, 1))
    ensures !After(D(2012, 5, 21), D(2012, 5, 21)) && !Before(D(2012, 5, 21), D(2012, 5, 21))
    ensures !After(D(2012, 5, 21), Time(DatetimeType, 2012, 5, 21, 0, 0, 0))
    ensures !After(D(2012, 5, 21), Time(TimestampType, 2012, 5, 21, 0, 0, 0))
    ensures Before(D(2012, 5, 21), Time(DatetimeType, 2012, 5, 21, 0, 0, 0))
    ensures Before(D(2012, 5, 21), Time(TimestampType, 2012, 5, 21, 0, 0, 0))
  {
  }

  /** equals: the same kind and the same fields. */
  lemma EqualsVectors()
    ensures D(2012, 5, 21) != D(2012, 1, 21)
    ensures D(2012, 5, 21) != Time(TimestampType, 2012, 5, 21, 7, 30, 0)
    ensures CompareFields(D(2012, 5, 21), Time(TimestampType, 2012, 5, 21, 7, 30, 0)) == 0
  {
  }

  lemma ConvertVectors()
    ensures Convert(D(2012, 5, 21), DateType) == D(2012, 5, 21)
    ensures Convert(D(2012, 5, 21), DatetimeType) == Time(DatetimeType, 2012, 5, 21, 0, 0, 0)
    ensures Convert(D(2012, 5, 21), TimestampType) == Time(TimestampType, 2012, 5, 21, 0, 0, 0)
  {
  }

  /** A four-digit year needs no padding. */
  lemma PadFour(n: nat, a: nat, b: nat, c: nat, d: nat)
    requires 1 <= a < 10 && b < 10 && c < 10 && d < 10 && n == 1000 * a + 100 * b + 10 * c + d
    ensures ZeroPad(n, 4) == [DigitChar(a), DigitChar(b), DigitChar(c), DigitChar(d)]
  {
    var m := 10 * a + b;
    DecimalStep(m, a, b);
    DecimalStep(10 * m + c, m, c);
    DecimalStep(n, 10 * m + c, d);
    assert Decimal(n) == [DigitChar(a), DigitChar(b), DigitChar(c), DigitChar(d)];
  }

  /** A number of at least two digits is written as its leading digits followed by its last digit. */
  lemma DecimalStep(n: nat, q: nat, r: nat)
    requires 1 <= q && r < 10 && n == 10 * q + r
    ensures Decimal(n) == Decimal(q) + [DigitChar(r)]
  {
    assert n / 10 == q && n % 10 == r;
  }

  /** A month or date padded to two digits. */
  lemma PadTwo(n: nat, a: nat, b: nat)
    requires a < 10 && b < 10 && n == 10 * a + b
    ensures ZeroPad(n, 2) == [DigitChar(a), DigitChar(b)]
  {
    if a == 0 {
      assert Decimal(n) == [DigitChar(b)];
    } else {
      assert n / 10 == a && n % 10 == b;
      assert Decimal(a) == [DigitChar(a)];
    }
  }

  /** The text form of a Date from the digits of its fields. */
  lemma DateTextOf(t: Time, y: seq<nat>, m: seq<nat>, d: seq<nat>)
    requires InRange(t) && t.kind == DateType
    requires |y| == 4 && 1 <= y[0] && y[0] < 10 && y[1] < 10 && y[2] < 10 && y[3] < 10
    requires |m| == 2 && m[0] < 10 && m[1] < 10 && |d| == 2 && d[0] < 10 && d[1] < 10
    requires t.year == 1000 * y[0] + 100 * y[1] + 10 * y[2] + y[3]
    requires t.month == 10 * m[0] + m[1] && t.date == 10 * d[0] + d[1]
    ensures ToString(t) == [DigitChar(y[0]), DigitChar(y[1]), DigitChar(y[2]), DigitChar(y[3]), '-',
                            DigitChar(m[0]), DigitChar(m[1]), '-', DigitChar(d[0]), DigitChar(d[1])]
    ensures FormatTime(t) == ""
  {
    var ys := [DigitChar(y[0]), DigitChar(y[1]), DigitChar(y[2]), DigitChar(y[3])];
    var ms := [DigitChar(m[0]), DigitChar(m[1])];
    var ds := [DigitChar(d[0]), DigitChar(d[1])];
    assert ZeroPad(t.year, 4) == ys by {
      PadFour(t.year, y[0], y[1], y[2], y[3]);
    }
    assert ZeroPad(t.month, 2) == ms by {
      PadTwo(t.month, m[0], m[1]);
    }
    assert ZeroPad(t.date, 2) == ds by {
      PadTwo(t.date, d[0], d[1]);
    }
    assert ToString(t) == ZeroPad(t.year, 4) + "-" + ZeroPad(t.month, 2) + "-" + ZeroPad(t.date, 2);
    DashJoin(ys, ms, ds);
  }

  /** Four, two and two characters joined by dashes. */
  lemma DashJoin(ys: string, ms: string, ds: string)
    requires |ys| == 4 && |ms| == 2 && |ds| == 2
    ensures ys + "-" + ms + "-" + ds == [ys[0], ys[1], ys[2], ys[3], '-', ms[0], ms[1], '-', ds[0], ds[1]]
  {
  }

  lemma TextOf20110501(t: Time)
    requires IsDate(t, 2011, 5, 1)
    ensures ToString(t) == "2011-05-01"
  {
    DateTextOf(t, [2, 0, 1, 1], [0, 5], [0, 1]);
  }

  lemma TextOf20001231(t: Time)
    requires IsDate(t, 2000, 12, 31)
    ensures ToString(t) == "2000-12-31"
  {
    DateTextOf(t, [2, 0, 0, 0], [1, 2], [3, 1]);
  }

  lemma TextOf18631119(t: Time)
    requires IsDate(t, 1863, 11, 19)
    ensures ToString(t) == "1863-11-19"
  {
    DateTextOf(t, [1, 8, 6, 3], [1, 1], [1, 9]);
  }

  /** format() and the clock part of a Date. */
  lemma TextOf20120521(t: Time)
    requires IsDate(t, 2012, 5, 21)
    ensures ToString(t) == "2012-05-21" && FormatTime(t) == ""
  {
    DateTextOf(t, [2, 0, 1, 2], [0, 5], [2, 1]);
  }
}
