/** Serial day and second numbers of the proleptic Gregorian calendar, and the proof that the
    normalisation of a time value keeps the instant it denotes, up to the 10000-year cycle that the
    wrapping of the year field introduces. */
module CalendarSerial {
  import opened Calendar

  function YearDays(y: int): (n: int)
    ensures n == 365 || n == 366
  {
    if IsLeapYear(y) then 366 else 365
  }

  /** The days of the years from year 0 up to year `y` (negative before year 0). */
  function DaysBeforeYear(y: int): int
    decreases if y < 0 then -y else y
  {
    if y == 0 then 0
    else if y > 0 then DaysBeforeYear(y - 1) + YearDays(y - 1)
    else DaysBeforeYear(y + 1) - YearDays(y)
  }

  /** The days before each month in a common year. */
  const CommonDaysBefore: seq<int> := [0, 31, 59, 90, 120, 151, 181, 212, 243, 273, 304, 334]

  /** The days of the months of year `y` before month `m`. */
  function DaysBeforeMonth(y: int, m: int): int
    requires 1 <= m <= 12
  {
    CommonDaysBefore[m - 1] + if 2 < m && IsLeapYear(y) then 1 else 0
  }

  /** The year and month of the `k`-th month counted from January of year 0. */
  function MonthOfIndex(k: int): (r: (int, int))
    ensures k == r.0 * 12 + r.1 - 1 && 1 <= r.1 <= 12
    decreases if k < 0 then 12 - k else k
  {
    if 0 <= k < 12 then (0, k + 1)
    else if k >= 12 then var p := MonthOfIndex(k - 12); (p.0 + 1, p.1)
    else var p := MonthOfIndex(k + 12); (p.0 - 1, p.1)
  }

  /** The number of day `d` of month `m` of year `y`, counting 0000-01-01 as day 0. */
  function DayNumber(y: int, m: int, d: int): int
    requires 1 <= m <= 12
  {
    DaysBeforeYear(y) + DaysBeforeMonth(y, m) + d - 1
  }

  /** The number of day `d` of the `k`-th month; a date outside the month counts days forwards or back. */
  function IndexSerial(k: int, d: int): int {
    var p := MonthOfIndex(k);
    DayNumber(p.0, p.1, d)
  }

  /** The number of the day a date field table denotes. Months outside 1..12 count whole years
      forwards or back. */
  function DaySerial(t: Time): int {
    IndexSerial(t.year * 12 + t.month - 1, t.date)
  }

  /** The number of the second a field table denotes. */
  function SecondSerial(t: Time): int {
    ((DaySerial(t) * 24 + t.hour) * 60 + t.minute) * 60 + t.second
  }

  /** Two day numbers a whole number of 10000-year cycles apart; such a cycle holds 3652425 days,
      25 cycles of 400 Gregorian years. */
  predicate SameDay(a: int, b: int) {
    (a - b) % 3652425 == 0
  }

  lemma SameDayMultiple(a: int, b: int, q: int)
    requires a == b + 3652425 * q
    ensures SameDay(a, b)
  {
  }

  lemma SameDayTrans(a: int, b: int, c: int)
    requires SameDay(a, b) && SameDay(b, c)
    ensures SameDay(a, c)
  {
    var x, y := (a - b) / 3652425, (b - c) / 3652425;
    assert a - c == 3652425 * (x + y);
  }

  /** A month index names exactly one year and month. */
  lemma IndexOf(y: int, m: int)
    requires 1 <= m <= 12
    ensures MonthOfIndex(y * 12 + m - 1) == (y, m)
  {
  }

  lemma YearStep(y: int)
    ensures DaysBeforeYear(y + 1) == DaysBeforeYear(y) + YearDays(y)
  {
  }

  /** The count of the days before a year in closed form: 365 a year and one more for each leap year. */
  lemma {:induction false} ClosedForm(y: int)
    ensures DaysBeforeYear(y) == 365 * y + (y + 3) / 4 - (y + 99) / 100 + (y + 399) / 400
    decreases if y < 0 then -y else y
  {
    if y > 0 {
      ClosedForm(y - 1);
      LeapCount(y - 1);
    } else if y < 0 {
      ClosedForm(y + 1);
      LeapCount(y);
    }
  }

  /** How the closed form grows from one year to the next. */
  lemma LeapCount(y: int)
    ensures 365 * (y + 1) + (y + 4) / 4 - (y + 100) / 100 + (y + 400) / 400
         == 365 * y + (y + 3) / 4 - (y + 99) / 100 + (y + 399) / 400 + YearDays(y)
  {
    var a, b, c := if y % 4 == 0 then 1 else 0, if y % 100 == 0 then 1 else 0, if y % 400 == 0 then 1 else 0;
    assert (y + 4) / 4 == (y + 3) / 4 + a by {
      var q := y / 4;
      assert y == 4 * q + y % 4;
    }
    assert (y + 100) / 100 == (y + 99) / 100 + b by {
      var q := y / 100;
      assert y == 100 * q + y % 100;
    }
    assert (y + 400) / 400 == (y + 399) / 400 + c by {
      var q := y / 400;
      assert y == 400 * q + y % 400;
    }
    assert YearDays(y) == 365 + a - b + c by {
      LeapDivisors(y);
    }
  }

  /** A multiple of 400 is a multiple of 100, and a multiple of 100 a multiple of 4. */
  lemma LeapDivisors(y: int)
    ensures y % 400 == 0 ==> y % 100 == 0
    ensures y % 100 == 0 ==> y % 4 == 0
  {
    if y % 400 == 0 {
      MultipleOf(y, 400, 100, 4);
    }
    if y % 100 == 0 {
      MultipleOf(y, 100, 4, 25);
    }
  }

  /** A multiple of `a`, where `a` is `b` times `f`, is a multiple of `b`. */
  lemma MultipleOf(y: int, a: int, b: int, f: int)
    requires (a, b, f) == (400, 100, 4) || (a, b, f) == (100, 4, 25)
    requires y % a == 0
    ensures y % b == 0
  {
    var k := y / a;
    assert y == a * k;
    assert y == b * (f * k) + 0;
  }

  lemma CycleStep(y: int)
    ensures DaysBeforeYear(y + 10000) == DaysBeforeYear(y) + 3652425
  {
    ClosedForm(y);
    ClosedForm(y + 10000);
    assert (y + 10003) / 4 == (y + 3) / 4 + 2500;
    assert (y + 10099) / 100 == (y + 99) / 100 + 100;
    assert (y + 10399) / 400 == (y + 399) / 400 + 25;
  }

  lemma LeapRepeat(y: int)
    ensures IsLeapYear(y + 10000) == IsLeapYear(y)
  {
    var q := y / 400;
    assert y + 10000 == 400 * (q + 25) + y % 400;
    assert (y + 10000) % 400 == y % 400;
    assert (y + 10000) % 100 == y % 100 by {
      var p := y / 100;
      assert y + 10000 == 100 * (p + 100) + y % 100;
    }
    assert (y + 10000) % 4 == y % 4 by {
      var p := y / 4;
      assert y + 10000 == 4 * (p + 2500) + y % 4;
    }
  }

  lemma DayNumberStep(y: int, m: int, d: int)
    requires 1 <= m <= 12
    ensures DayNumber(y + 10000, m, d) == DayNumber(y, m, d) + 3652425
  {
    CycleStep(y);
    LeapRepeat(y);
  }

  lemma {:induction false} DayNumberShift(y: int, m: int, d: int, q: nat)
    requires 1 <= m <= 12
    ensures DayNumber(y + 10000 * q, m, d) == DayNumber(y, m, d) + 3652425 * q
  {
    if q > 0 {
      DayNumberShift(y, m, d, q - 1);
      DayNumberStep(y + 10000 * (q - 1), m, d);
    }
  }

  /** Moving a date by `q` whole 10000-year cycles, forwards or back, moves its day number by `q` cycles. */
  lemma DayNumberCycles(y: int, m: int, d: int, q: int)
    requires 1 <= m <= 12
    ensures DayNumber(y + 10000 * q, m, d) == DayNumber(y, m, d) + 3652425 * q
  {
    if q < 0 {
      DayNumberShift(y + 10000 * q, m, d, -q);
      assert y + 10000 * q + 10000 * -q == y;
    } else {
      DayNumberShift(y, m, d, q);
    }
  }

  /** The day number of a table whose year and month name the month `m` of year `y`. */
  lemma SerialAt(t: Time, y: int, m: int)
    requires 1 <= m <= 12 && t.year * 12 + t.month == y * 12 + m
    ensures DaySerial(t) == DayNumber(y, m, t.date)
  {
    IndexOf(y, m);
  }

  /** Wrapping the year into 0..9999 moves the day number by whole cycles. */
  lemma WrapKeepsDay(t: Time)
    ensures SameDay(DaySerial(t.(year := WrapYear(t.year).0)), DaySerial(t))
  {
    var c := WrapYear(t.year);
    var w := t.(year := c.0);
    var p := MonthOfIndex(t.year * 12 + t.month - 1);
    var y0 := p.0 - 10000 * c.1;
    SerialAt(t, p.0, p.1);
    SerialAt(w, y0, p.1);
    DayNumberCycles(y0, p.1, t.date, c.1);
    assert y0 + 10000 * c.1 == p.0;
    SameDayMultiple(DaySerial(w), DaySerial(t), -c.1);
  }

  /** Each month starts where the one before it ends. */
  lemma MonthStep(y: int, m: int)
    requires 1 <= m < 12
    ensures DaysBeforeMonth(y, m + 1) == DaysBeforeMonth(y, m) + DaysInMonth(y, m)
  {
  }

  lemma DaysBeforeDecember(y: int)
    ensures DaysBeforeMonth(y, 12) + 31 == YearDays(y)
  {
  }

  /** The last day of December and the days before it count on into January of the next year. */
  lemma YearBorrow(y: int, d: int)
    ensures DayNumber(y - 1, 12, d + 31) == DayNumber(y, 1, d)
  {
    YearStep(y - 1);
    DaysBeforeDecember(y - 1);
  }

  /** The days of a month count on into the month after it. */
  lemma MonthBorrow(y: int, m: int, d: int)
    requires 1 < m <= 12
    ensures DayNumber(y, m - 1, d + DaysInMonth(y, m - 1)) == DayNumber(y, m, d)
  {
    MonthStep(y, m - 1);
  }

  /** Borrowing the days of the month before keeps the day number. */
  lemma BorrowDay(t: Time)
    requires 1 <= t.month <= 12
    ensures DaySerial(t.(month := t.month - 1, date := t.date + PrevMonthDays(t.year, t.month))) == DaySerial(t)
  {
    var n := t.(month := t.month - 1, date := t.date + PrevMonthDays(t.year, t.month));
    SerialAt(t, t.year, t.month);
    if t.month == 1 {
      SerialAt(n, t.year - 1, 12);
      YearBorrow(t.year, t.date);
    } else {
      SerialAt(n, t.year, t.month - 1);
      MonthBorrow(t.year, t.month, t.date);
    }
  }

  /** Carrying the days of the month into the next month keeps the day number. */
  lemma CarryDay(t: Time)
    requires 1 <= t.month <= 12
    ensures DaySerial(t.(month := t.month + 1, date := t.date - DaysInMonth(t.year, t.month))) == DaySerial(t)
  {
    var n := t.(month := t.month + 1, date := t.date - DaysInMonth(t.year, t.month));
    SerialAt(t, t.year, t.month);
    if t.month == 12 {
      SerialAt(n, t.year + 1, 1);
      YearBorrow(t.year + 1, n.date);
    } else {
      SerialAt(n, t.year, t.month + 1);
      MonthBorrow(t.year, t.month + 1, n.date);
    }
  }

  /** Moving whole years between the month and the year field keeps the day number. */
  lemma MonthCarry(t: Time, up: bool)
    ensures DaySerial(if up then MoveUp(t, MonthAdjuster) else MoveDown(t, MonthAdjuster)) == DaySerial(t)
  {
    var r := if up then MoveUp(t, MonthAdjuster) else MoveDown(t, MonthAdjuster);
    assert Get(r, Year) == r.year && Get(r, Month) == r.month && Get(r, Date) == r.date;
    assert r.year * 12 + r.month - 1 == t.year * 12 + t.month - 1;
  }

  /** The date normalisation keeps the day a table denotes, up to whole 10000-year cycles. */
  lemma {:induction false} AdjustDateKeepsDay(t: Time)
    ensures SameDay(DaySerial(AdjustDate(t)), DaySerial(t))
    decreases DateWeight(t.date), Dist(t.month, 1, 12)
  {
    var w := t.(year := WrapYear(t.year).0);
    WrapKeepsDay(t);
    if w.month < 1 {
      MonthCarry(w, false);
      AdjustDateKeepsDay(MoveDown(w, MonthAdjuster));
    } else if 12 < w.month {
      MonthCarry(w, true);
      AdjustDateKeepsDay(MoveUp(w, MonthAdjuster));
    } else if w.date < 1 {
      BorrowDay(w);
      AdjustDateKeepsDay(w.(month := w.month - 1, date := w.date + PrevMonthDays(w.year, w.month)));
    } else if DaysInMonth(w.year, w.month) < w.date {
      CarryDay(w);
      AdjustDateKeepsDay(w.(month := w.month + 1, date := w.date - DaysInMonth(w.year, w.month)));
    }
    SameDayTrans(DaySerial(AdjustDate(t)), DaySerial(w), DaySerial(t));
  }

  /** Two second numbers a whole number of 10000-year cycles apart. */
  predicate SameSecond(a: int, b: int) {
    (a - b) % 315569520000 == 0
  }

  lemma SameSecondMultiple(a: int, b: int, q: int)
    requires a == b + 315569520000 * q
    ensures SameSecond(a, b)
  {
  }

  lemma SameSecondTrans(a: int, b: int, c: int)
    requires SameSecond(a, b) && SameSecond(b, c)
    ensures SameSecond(a, c)
  {
    var x, y := (a - b) / 315569520000, (b - c) / 315569520000;
    assert a - c == 315569520000 * (x + y);
  }

  /** Days a whole number of cycles apart, with the same clock, are seconds a whole number of cycles apart. */
  lemma SameDaySecond(a: Time, b: Time)
    requires SameDay(DaySerial(a), DaySerial(b))
    requires a.hour == b.hour && a.minute == b.minute && a.second == b.second
    ensures SameSecond(SecondSerial(a), SecondSerial(b))
  {
    var q := (DaySerial(a) - DaySerial(b)) / 3652425;
    assert DaySerial(a) == DaySerial(b) + 3652425 * q;
    SameSecondMultiple(SecondSerial(a), SecondSerial(b), q);
  }

  /** One day more or less in the date field is one day more or less in the day number. */
  lemma DateShift(t: Time, k: int)
    ensures DaySerial(t.(date := t.date + k)) == DaySerial(t) + k
  {
    var p := MonthOfIndex(t.year * 12 + t.month - 1);
    SerialAt(t, p.0, p.1);
    SerialAt(t.(date := t.date + k), p.0, p.1);
  }

  /** A carry or borrow between hour and date, minute and hour, or second and minute keeps the second number. */
  lemma ClockCarry(t: Time, a: Adjuster, up: bool)
    requires a == HourAdjuster || a == MinuteAdjuster || a == SecondAdjuster
    ensures SecondSerial(if up then MoveUp(t, a) else MoveDown(t, a)) == SecondSerial(t)
  {
    var r := if up then MoveUp(t, a) else MoveDown(t, a);
    var k := if up then 1 else -1;
    if a == HourAdjuster {
      assert r == t.(date := t.date + k, hour := t.hour - 24 * k);
      assert DaySerial(r) == DaySerial(t) + k by {
        DateShift(t, k);
        assert r.year == t.year && r.month == t.month && r.date == t.date + k;
      }
    } else {
      assert DaySerial(r) == DaySerial(t) by {
        assert r.year == t.year && r.month == t.month && r.date == t.date;
      }
      if a == MinuteAdjuster {
        assert r == t.(hour := t.hour + k, minute := t.minute - 60 * k);
      } else {
        assert r == t.(minute := t.minute + k, second := t.second - 60 * k);
      }
    }
  }

  /** The Datetime normalisation keeps the second a table denotes, up to whole 10000-year cycles. */
  lemma {:induction false} AdjustDatetimeKeepsSecond(t: Time)
    ensures SameSecond(SecondSerial(AdjustDatetime(t)), SecondSerial(t))
    decreases Dist(t.minute, 0, 59), Dist(t.hour, 0, 23)
  {
    var d := AdjustDate(t);
    AdjustDateKeepsDay(t);
    SameDaySecond(d, t);
    if d.hour < 0 {
      ClockCarry(d, HourAdjuster, false);
      AdjustDatetimeKeepsSecond(MoveDown(d, HourAdjuster));
    } else if 23 < d.hour {
      ClockCarry(d, HourAdjuster, true);
      AdjustDatetimeKeepsSecond(MoveUp(d, HourAdjuster));
    } else if d.minute < 0 {
      ClockCarry(d, MinuteAdjuster, false);
      AdjustDatetimeKeepsSecond(MoveDown(d, MinuteAdjuster));
    } else if 59 < d.minute {
      ClockCarry(d, MinuteAdjuster, true);
      AdjustDatetimeKeepsSecond(MoveUp(d, MinuteAdjuster));
    }
    SameSecondTrans(SecondSerial(AdjustDatetime(t)), SecondSerial(d), SecondSerial(t));
  }

  /** The Timestamp normalisation keeps the second a table denotes, up to whole 10000-year cycles. */
  lemma {:induction false} AdjustTimestampKeepsSecond(t: Time)
    ensures SameSecond(SecondSerial(AdjustTimestamp(t)), SecondSerial(t))
    decreases Dist(t.second, 0, 59)
  {
    var d := AdjustDatetime(t);
    AdjustDatetimeKeepsSecond(t);
    if d.second < 0 {
      ClockCarry(d, SecondAdjuster, false);
      AdjustTimestampKeepsSecond(MoveDown(d, SecondAdjuster));
    } else if 59 < d.second {
      ClockCarry(d, SecondAdjuster, true);
      AdjustTimestampKeepsSecond(MoveUp(d, SecondAdjuster));
    }
    SameSecondTrans(SecondSerial(AdjustTimestamp(t)), SecondSerial(d), SecondSerial(t));
  }

  /** Each year has at least 365 days, so the day count before a year grows with the year. */
  lemma {:induction false} YearsApart(y: int, n: nat)
    ensures DaysBeforeYear(y) + 365 * n <= DaysBeforeYear(y + n)
  {
    if n > 0 {
      YearsApart(y, n - 1);
      YearStep(y + n - 1);
    }
  }

  /** A month ends no later than any later month of the same year starts. */
  lemma {:induction false} MonthsBefore(y: int, m: int, m2: int)
    requires 1 <= m < m2 <= 12
    ensures DaysBeforeMonth(y, m) + DaysInMonth(y, m) <= DaysBeforeMonth(y, m2)
    decreases m2
  {
    MonthStep(y, m2 - 1);
    if m < m2 - 1 {
      MonthsBefore(y, m, m2 - 1);
    }
  }

  /** A date within its month lies within its year. */
  lemma DayWithinYear(y: int, m: int, d: int)
    requires 1 <= m <= 12 && 1 <= d <= DaysInMonth(y, m)
    ensures DaysBeforeYear(y) <= DayNumber(y, m, d) < DaysBeforeYear(y + 1)
  {
    YearStep(y);
    DaysBeforeDecember(y);
    if m < 12 {
      MonthsBefore(y, m, 12);
    }
  }

  /** Dates in range and in calendar order have increasing day numbers. */
  predicate DateBefore(a: Time, b: Time) {
    a.year < b.year || (a.year == b.year && (a.month < b.month || (a.month == b.month && a.date < b.date)))
  }

  lemma SerialOrder(a: Time, b: Time)
    requires DateInRange(a) && DateInRange(b) && DateBefore(a, b)
    ensures DaySerial(a) < DaySerial(b)
  {
    SerialAt(a, a.year, a.month);
    SerialAt(b, b.year, b.month);
    DayWithinYear(a.year, a.month, a.date);
    DayWithinYear(b.year, b.month, b.date);
    if a.year < b.year {
      YearsApart(a.year + 1, b.year - a.year - 1);
    } else if a.month < b.month {
      MonthsBefore(a.year, a.month, b.month);
    }
  }

  /** The dates in range are numbered from 0 up to one cycle. */
  lemma SerialRange(t: Time)
    requires DateInRange(t)
    ensures 0 <= DaySerial(t) < 3652425
  {
    SerialFrom(t, 0);
  }

  /** The same, with the first year `o` of the range a parameter, so that the count of days before
      year 10000 is reasoned about through its lemmas rather than evaluated. */
  lemma SerialFrom(t: Time, o: int)
    requires DateInRange(t) && o == 0
    ensures 0 <= DaySerial(t) < 3652425
  {
    assert DaysBeforeYear(t.year) <= DaySerial(t) < DaysBeforeYear(t.year + 1) by {
      SerialAt(t, t.year, t.month);
      DayWithinYear(t.year, t.month, t.date);
    }
    assert DaysBeforeYear(o) <= DaysBeforeYear(t.year) by {
      YearsApart(o, t.year - o);
    }
    assert DaysBeforeYear(t.year + 1) <= DaysBeforeYear(o + 10000) by {
      YearsApart(t.year + 1, o + 9999 - t.year);
      assert t.year + 1 + (o + 9999 - t.year) == o + 10000;
    }
    assert DaysBeforeYear(o + 10000) == DaysBeforeYear(o) + 3652425 by {
      CycleStep(o);
    }
  }

  /** Two dates in range a whole number of cycles apart are the same date. */
  lemma SerialInjective(a: Time, b: Time)
    requires DateInRange(a) && DateInRange(b) && SameDay(DaySerial(a), DaySerial(b))
    ensures a.year == b.year && a.month == b.month && a.date == b.date
  {
    SerialRange(a);
    SerialRange(b);
    if DateBefore(a, b) {
      SerialOrder(a, b);
    } else if DateBefore(b, a) {
      SerialOrder(b, a);
    }
  }

  /** The same day of a month from March on, one year later, is 365 days later, or 366 when the later
      year is a leap year. */
  lemma YearLater(a: Time, b: Time)
    requires 3 <= a.month <= 12 && b == a.(year := a.year + 1)
    ensures DaySerial(b) == DaySerial(a) + 365 + (if IsLeapYear(b.year) then 1 else 0)
  {
    SerialAt(a, a.year, a.month);
    SerialAt(b, b.year, b.month);
    YearStep(a.year);
  }
}
