/** The operations of the three kinds of time value: fields by name (get, set, add, setAll), the
    order between time values, the day of the week, the text forms and the conversions between
    kinds. A time value never changes; every operation returns a new, normalised one. */
module Times {
  import opened Wrappers
  import opened Text
  import opened Calendar
  import opened CalendarSerial

  /** The field a name selects, by the first letters of its lower-case form: "y" the year, "mo" the
      month, "d" the date, "h" the hour, any other "m" the minute and "s" the second. The empty name
      stands for a missing one and selects nothing. */
  function FieldOf(name: string): (r: Option<Field>)
    ensures r == Some(Year) <==> 0 < |name| && LowerChar(name[0]) == 'y'
    ensures r == Some(Month) <==> 1 < |name| && LowerChar(name[0]) == 'm' && LowerChar(name[1]) == 'o'
    ensures r == Some(Minute) <==> 0 < |name| && LowerChar(name[0]) == 'm' && !(1 < |name| && LowerChar(name[1]) == 'o')
    ensures r == Some(Date) <==> 0 < |name| && LowerChar(name[0]) == 'd'
    ensures r == Some(Hour) <==> 0 < |name| && LowerChar(name[0]) == 'h'
    ensures r == Some(Second) <==> 0 < |name| && LowerChar(name[0]) == 's'
  {
    var s := ToLower(name);
    if |s| == 0 then None
    else if s[0] == 'y' then Some(Year)
    else if 1 < |s| && s[0] == 'm' && s[1] == 'o' then Some(Month)
    else if s[0] == 'd' then Some(Date)
    else if s[0] == 'h' then Some(Hour)
    else if s[0] == 'm' then Some(Minute)
    else if s[0] == 's' then Some(Second)
    else None
  }

  /** The full lower-case name of each field. */
  function FieldName(f: Field): string {
    match f
    case Year => "year"
    case Month => "month"
    case Date => "date"
    case Hour => "hour"
    case Minute => "minute"
    case Second => "second"
  }

  /** Every field is selected by its own name. */
  lemma FieldNameSelects(f: Field)
    ensures FieldOf(FieldName(f)) == Some(f)
  {
    var n := FieldName(f);
    assert LowerChar(n[0]) == n[0];
    assert 1 < |n| ==> LowerChar(n[1]) == n[1];
  }

  /** The value of the field a name selects, or nothing when the name selects no field the kind carries. */
  function GetByName(t: Time, name: string): (r: Option<int>)
    ensures r.Some? <==> FieldOf(name).Some? && HasField(t.kind, FieldOf(name).value)
    ensures r.Some? ==> r.value == Get(t, FieldOf(name).value)
  {
    match FieldOf(name)
    case Some(f) => if HasField(t.kind, f) then Some(Get(t, f)) else None
    case None => None
  }

  /** The time value with field `f` set to `v` and normalised; a field the kind does not carry is ignored. */
  function SetField(t: Time, f: Field, v: int): (r: Time)
    requires Shaped(t)
    ensures r.kind == t.kind && Shaped(r)
    ensures HasField(t.kind, f) ==> InRange(r)
    ensures !HasField(t.kind, f) ==> r == t
    ensures HasField(t.kind, f) && InRange(Put(t, f, v)) ==> r == Put(t, f, v)
  {
    if HasField(t.kind, f) then Adjust(Put(t, f, v)) else t
  }

  /** set(name, value): a name that selects no field leaves the value as it is. */
  function Set(t: Time, name: string, v: int): (r: Time)
    requires Shaped(t)
    ensures r.kind == t.kind && Shaped(r)
    ensures FieldOf(name).None? ==> r == t
    ensures FieldOf(name).Some? ==> r == SetField(t, FieldOf(name).value, v)
  {
    match FieldOf(name)
    case Some(f) => SetField(t, f, v)
    case None => t
  }

  /** The time value with `k` added to field `f` and normalised; a field the kind does not carry is ignored. */
  function AddField(t: Time, f: Field, k: int): (r: Time)
    requires Shaped(t)
    ensures r.kind == t.kind && Shaped(r)
    ensures !HasField(t.kind, f) ==> r == t
    ensures HasField(t.kind, f) ==> InRange(r) && r == SetField(t, f, Get(t, f) + k)
  {
    if HasField(t.kind, f) then SetField(t, f, Get(t, f) + k) else t
  }

  /** add(name, amount): set(name, get(name) + amount); a name the kind does not carry changes nothing. */
  function Add(t: Time, name: string, k: int): (r: Time)
    requires Shaped(t)
    ensures r.kind == t.kind && Shaped(r)
  {
    match FieldOf(name)
    case Some(f) => AddField(t, f, k)
    case None => t
  }

  /** add is set of the current value plus the amount, and a name the kind does not carry changes nothing. */
  lemma AddIsSet(t: Time, name: string, k: int)
    requires Shaped(t)
    ensures GetByName(t, name).None? ==> Add(t, name, k) == t
    ensures GetByName(t, name).Some? ==> Add(t, name, k) == Set(t, name, GetByName(t, name).value + k)
  {
  }

  /** The seconds one unit of a clock or date field stands for. */
  function Unit(f: Field): int
    requires f != Year && f != Month
  {
    match f
    case Date => 86400
    case Hour => 3600
    case Minute => 60
    case Second => 1
  }

  /** Every normalisation keeps the instant up to whole 10000-year cycles. */
  lemma AdjustKeepsSecond(t: Time)
    requires Shaped(t)
    ensures SameSecond(SecondSerial(Adjust(t)), SecondSerial(t))
  {
    match t.kind
    case DateType =>
      AdjustDateKeepsDay(t);
      SameDaySecond(AdjustDate(t), t);
    case DatetimeType =>
      AdjustDatetimeKeepsSecond(t);
    case TimestampType =>
      AdjustTimestampKeepsSecond(t);
  }

  /** Adding to one of the fields date, hour, minute or second before normalising moves the second number
      by that many units. */
  lemma PutMovesSecond(t: Time, f: Field, k: int)
    requires f != Year && f != Month
    ensures SecondSerial(Put(t, f, Get(t, f) + k)) == SecondSerial(t) + Unit(f) * k
  {
    var n := Put(t, f, Get(t, f) + k);
    if f == Date {
      assert n == t.(date := t.date + k);
      DateShift(t, k);
    } else {
      assert DaySerial(n) == DaySerial(t) by {
        assert n.year == t.year && n.month == t.month && n.date == t.date;
      }
    }
  }

  /** Adding to the date, hour, minute or second field moves the instant by that many units: the
      result and the input plus the amount name the same second, up to whole 10000-year cycles. */
  lemma AddMovesInstant(t: Time, f: Field, k: int)
    requires Shaped(t) && HasField(t.kind, f) && f != Year && f != Month
    ensures SameSecond(SecondSerial(AddField(t, f, k)), SecondSerial(t) + Unit(f) * k)
  {
    var n := Put(t, f, Get(t, f) + k);
    var r := AddField(t, f, k);
    assert r == Adjust(n);
    assert SameSecond(SecondSerial(r), SecondSerial(n)) by {
      AdjustKeepsSecond(n);
    }
    assert SecondSerial(n) == SecondSerial(t) + Unit(f) * k by {
      PutMovesSecond(t, f, k);
    }
  }

  /** The seconds since midnight the clock fields name. */
  function ClockSeconds(t: Time): int {
    (t.hour * 60 + t.minute) * 60 + t.second
  }

  /** Second numbers a whole number of cycles apart, each split into a day and a second of the day,
      have the same second of the day and days a whole number of cycles apart. */
  lemma SplitSecond(a: int, b: int, x: int, y: int)
    requires 0 <= x < 86400 && 0 <= y < 86400
    requires SameSecond(a * 86400 + x, b * 86400 + y)
    ensures x == y && SameDay(a, b)
  {
    var q := (a * 86400 + x - (b * 86400 + y)) / 315569520000;
    assert a * 86400 + x - (b * 86400 + y) == 315569520000 * q;
    var m := 3652425 * q - (a - b);
    assert x - y == 86400 * m;
    assert m == 0;
    SameDayMultiple(a, b, q);
  }

  /** Two time values in range whose second numbers lie `k` days apart, up to whole cycles, have the
      same clock and day numbers `k` apart, up to whole cycles. */
  lemma DaysFromSeconds(r: Time, t: Time, k: int)
    requires InRange(r) && InRange(t)
    requires SameSecond(SecondSerial(r), SecondSerial(t) + 86400 * k)
    ensures ClockSeconds(r) == ClockSeconds(t) && SameDay(DaySerial(r), DaySerial(t) + k)
  {
    var dr, dt, cr, ct := DaySerial(r), DaySerial(t), ClockSeconds(r), ClockSeconds(t);
    DayAndClock(r);
    DayAndClock(t);
    assert SecondSerial(t) + 86400 * k == (dt + k) * 86400 + ct;
    SplitSecond(dr, dt + k, cr, ct);
  }

  /** A second number is its day number in seconds plus the seconds since midnight, which for a clock
      in range are fewer than a day's. */
  lemma DayAndClock(t: Time)
    ensures SecondSerial(t) == DaySerial(t) * 86400 + ClockSeconds(t)
    ensures InRange(t) ==> 0 <= ClockSeconds(t) < 86400
  {
  }

  /** Adding days to a time value in range moves its date by that many days, up to whole cycles,
      and keeps its clock. */
  lemma AddDays(t: Time, k: int)
    requires InRange(t)
    ensures InRange(AddField(t, Date, k)) && ClockSeconds(AddField(t, Date, k)) == ClockSeconds(t)
    ensures SameDay(DaySerial(AddField(t, Date, k)), DaySerial(t) + k)
  {
    var r := AddField(t, Date, k);
    AddMovesInstant(t, Date, k);
    DaysFromSeconds(r, t, k);
  }

  /** Adding `k` days gives the time value in range, of the same kind and clock, whose day number is
      `k` more. */
  lemma AddDaysTo(t: Time, e: Time, k: int)
    requires InRange(t) && InRange(e) && e.kind == t.kind
    requires e.hour == t.hour && e.minute == t.minute && e.second == t.second
    requires DaySerial(e) == DaySerial(t) + k
    ensures AddField(t, Date, k) == e
  {
    var r := AddField(t, Date, k);
    AddDays(t, k);
    SameInstant(r, e);
  }

  /** Adding `k` units of the date, hour, minute or second field to any time value gives the one in range, of
      the same kind, whose second number is `k` units more. */
  lemma AddFieldTo(t: Time, e: Time, f: Field, k: int)
    requires Shaped(t) && InRange(e) && e.kind == t.kind
    requires HasField(t.kind, f) && f != Year && f != Month
    requires SecondSerial(e) == SecondSerial(t) + Unit(f) * k
    ensures AddField(t, f, k) == e
  {
    AddMovesInstant(t, f, k);
    SecondsFix(AddField(t, f, k), e, SecondSerial(t) + Unit(f) * k);
  }

  /** Two time values in range of the same kind naming the same instant, up to whole cycles, are
      equal. */
  lemma SecondsFix(r: Time, e: Time, s: int)
    requires InRange(r) && InRange(e) && r.kind == e.kind
    requires SameSecond(SecondSerial(r), s) && SecondSerial(e) == s
    ensures r == e
  {
    DayAndClock(r);
    DayAndClock(e);
    SplitSecond(DaySerial(r), DaySerial(e), ClockSeconds(r), ClockSeconds(e));
    ClockFields(r, e);
    SameInstant(r, e);
  }

  /** Clock fields in range are fixed by the seconds since midnight they name. */
  lemma ClockFields(r: Time, e: Time)
    requires InRange(r) && InRange(e) && ClockSeconds(r) == ClockSeconds(e)
    ensures r.hour == e.hour && r.minute == e.minute && r.second == e.second
  {
    var a, b := r.hour * 60 + r.minute, e.hour * 60 + e.minute;
    assert ClockSeconds(r) / 60 == a && ClockSeconds(e) / 60 == b;
    assert a / 60 == r.hour && b / 60 == e.hour;
  }

  /** The day of the week, 0 for Sunday to 6 for Saturday; 0000-01-01 of the proleptic Gregorian
      calendar is a Saturday. */
  function GetDay(t: Time): (r: int)
    ensures 0 <= r < 7
  {
    (DaySerial(t) + 6) % 7
  }

  /** The day of the week of a date in range from the closed form of its day number. */
  lemma WeekdayOf(t: Time, y: int, m: int, d: int, n: int, w: int)
    requires 1 <= m <= 12 && t.year == y && t.month == m && t.date == d
    requires n == 365 * y + (y + 3) / 4 - (y + 99) / 100 + (y + 399) / 400 + DaysBeforeMonth(y, m) + d - 1
    requires w == (n + 6) % 7
    ensures DaySerial(t) == n && GetDay(t) == w
  {
    SerialAt(t, y, m);
    ClosedForm(y);
  }

  /** A cycle of 10000 years is a whole number of weeks. */
  lemma CycleWeeks(a: int, b: int)
    requires SameDay(a, b)
    ensures (a + 6) % 7 == (b + 6) % 7
  {
    var q := (a - b) / 3652425;
    var w := 521775 * q;
    assert a + 6 == (b + 6) + 7 * w;
  }

  /** Adding `k` days moves the day of the week by `k`. */
  lemma AddDaysWeekday(t: Time, k: int)
    requires InRange(t)
    ensures GetDay(AddField(t, Date, k)) == (GetDay(t) + k) % 7
  {
    AddDays(t, k);
    WeekdayShift(AddField(t, Date, k), t, k);
  }

  /** Day numbers `k` apart, up to whole cycles, are `k` days of the week apart. */
  lemma WeekdayShift(r: Time, t: Time, k: int)
    requires SameDay(DaySerial(r), DaySerial(t) + k)
    ensures GetDay(r) == (GetDay(t) + k) % 7
  {
    var dr, dt := DaySerial(r), DaySerial(t);
    CycleWeeks(dr, dt + k);
    WeekdayStep(dt + 6, k);
  }

  lemma WeekdayStep(a: int, k: int)
    ensures (a % 7 + k) % 7 == (a + k) % 7
  {
    var q := a / 7;
    assert a == 7 * q + a % 7;
  }

  /** Two dates in range of the same kind and clock a whole number of cycles apart are equal. */
  lemma SameInstant(r: Time, e: Time)
    requires InRange(r) && InRange(e) && r.kind == e.kind
    requires SameDay(DaySerial(r), DaySerial(e)) && r.hour == e.hour && r.minute == e.minute && r.second == e.second
    ensures r == e
  {
    SerialInjective(r, e);
  }

  /** The comparison of the date fields: the difference of the first of year, month and date that differ. */
  function CompareDate(a: Time, b: Time): int {
    if a.year != b.year then a.year - b.year
    else if a.month != b.month then a.month - b.month
    else a.date - b.date
  }

  /** compareFields: the fields the two values share, coarsest first. A Datetime or Timestamp compared
      with a Date stops after the date fields, because the Date has no hour; the seconds count only
      between two Timestamps. */
  function CompareFields(a: Time, b: Time): int {
    var c := CompareDate(a, b);
    if c != 0 || a.kind == DateType || b.kind == DateType then c
    else if a.hour != b.hour then a.hour - b.hour
    else if a.minute != b.minute then a.minute - b.minute
    else if a.kind == TimestampType && b.kind == TimestampType then a.second - b.second
    else 0
  }

  /** compareTo: the field comparison, and when the shared fields agree, the kind with fewer fields first. */
  function CompareTo(a: Time, b: Time): int {
    var c := CompareFields(a, b);
    if c != 0 then c else TypeCode(a.kind) - TypeCode(b.kind)
  }

  predicate Before(a: Time, b: Time) {
    CompareTo(a, b) < 0
  }

  predicate After(a: Time, b: Time) {
    CompareTo(a, b) > 0
  }

  /** The reference order: the six fields, coarsest first, then the type code, compared lexicographically. */
  predicate KeyBefore(a: Time, b: Time) {
    a.year < b.year || (a.year == b.year &&
    (a.month < b.month || (a.month == b.month &&
    (a.date < b.date || (a.date == b.date &&
    (a.hour < b.hour || (a.hour == b.hour &&
    (a.minute < b.minute || (a.minute == b.minute &&
    (a.second < b.second || (a.second == b.second &&
    TypeCode(a.kind) < TypeCode(b.kind))))))))))))
  }

  /** On time values in range, compareTo is the lexicographic order of the fields and the type code:
      negative exactly when the first comes first, zero exactly for equal values, positive exactly
      when the second comes first. */
  lemma CompareToIsKeyOrder(a: Time, b: Time)
    requires InRange(a) && InRange(b)
    ensures CompareTo(a, b) < 0 <==> KeyBefore(a, b)
    ensures CompareTo(a, b) == 0 <==> a == b
    ensures CompareTo(a, b) > 0 <==> KeyBefore(b, a)
  {
    if CompareDate(a, b) == 0 && a.kind != b.kind {
      assert TypeCode(a.kind) != TypeCode(b.kind);
    }
  }

  /** before and after are each other's mirror, and exactly one of before, equal and after holds. */
  lemma BeforeAfter(a: Time, b: Time)
    requires InRange(a) && InRange(b)
    ensures Before(a, b) <==> After(b, a)
    ensures (Before(a, b) || a == b || After(a, b)) && !(Before(a, b) && After(a, b))
    ensures !Before(a, a) && !After(a, a)
  {
    CompareToIsKeyOrder(a, b);
    CompareToIsKeyOrder(b, a);
    CompareToIsKeyOrder(a, a);
  }

  /** before is transitive. */
  lemma BeforeTransitive(a: Time, b: Time, c: Time)
    requires InRange(a) && InRange(b) && InRange(c)
    requires Before(a, b) && Before(b, c)
    ensures Before(a, c)
  {
    CompareToIsKeyOrder(a, b);
    CompareToIsKeyOrder(b, c);
    CompareToIsKeyOrder(a, c);
  }

  /** A kind of time value converted to kind `k`: the shared fields are kept, the fields `k` adds are
      0 and the fields `k` lacks are dropped (toDate, toDatetime, toTimestamp). */
  function Convert(t: Time, k: Kind): (r: Time)
    ensures r.kind == k && Shaped(r)
    ensures InRange(t) ==> InRange(r)
    ensures forall f :: HasField(t.kind, f) && HasField(k, f) ==> Get(r, f) == Get(t, f)
    ensures Shaped(t) ==> forall f :: !(HasField(t.kind, f) && HasField(k, f)) ==> Get(r, f) == 0
  {
    Time(k, t.year, t.month, t.date,
         if k == DateType then 0 else t.hour,
         if k == DateType then 0 else t.minute,
         if k == TimestampType then t.second else 0)
  }

  /** Converting to a kind with at least the same fields and back gives the value back, and the
      wider value has the same fields and comes after it. */
  lemma ConvertWidens(t: Time, k: Kind)
    requires InRange(t) && TypeCode(t.kind) <= TypeCode(k)
    ensures Convert(Convert(t, k), t.kind) == t
    ensures CompareFields(t, Convert(t, k)) == 0
    ensures t.kind != k ==> Before(t, Convert(t, k)) && After(Convert(t, k), t)
  {
  }

  /** The pairs of a setAll argument put into the field table in order; a pair whose name selects no
      field the kind carries is skipped. */
  function PutNamed(t: Time, fields: seq<(string, int)>): (r: Time)
    ensures r.kind == t.kind && (Shaped(t) ==> Shaped(r))
    decreases |fields|
  {
    if |fields| == 0 then t
    else PutNamed(PutName(t, fields[0]), fields[1..])
  }

  /** One pair of a setAll argument put into the field table. */
  function PutName(t: Time, field: (string, int)): (r: Time)
    ensures r.kind == t.kind && (Shaped(t) ==> Shaped(r))
  {
    match FieldOf(field.0)
    case Some(f) => if HasField(t.kind, f) then Put(t, f, field.1) else t
    case None => t
  }

  /** A field that no pair names keeps its value. */
  lemma {:induction false} PutNamedKeeps(t: Time, fields: seq<(string, int)>, f: Field)
    requires forall i :: 0 <= i < |fields| ==> FieldOf(fields[i].0) != Some(f)
    ensures Get(PutNamed(t, fields), f) == Get(t, f)
    decreases |fields|
  {
    if |fields| > 0 {
      PutNamedKeeps(PutName(t, fields[0]), fields[1..], f);
    }
  }

  /** The field the last pair names, when the kind carries it, takes that pair's value. */
  lemma {:induction false} PutNamedLast(t: Time, fields: seq<(string, int)>, f: Field)
    requires 0 < |fields| && FieldOf(fields[|fields| - 1].0) == Some(f) && HasField(t.kind, f)
    ensures Get(PutNamed(t, fields), f) == fields[|fields| - 1].1
    decreases |fields|
  {
    if |fields| > 1 {
      PutNamedLast(PutName(t, fields[0]), fields[1..], f);
    }
  }

  /** setAll: every named field put first, then one normalisation, so coarser fields settle first. */
  function SetAll(t: Time, fields: seq<(string, int)>): (r: Time)
    requires Shaped(t)
    ensures r.kind == t.kind && InRange(r)
    ensures InRange(PutNamed(t, fields)) ==> r == PutNamed(t, fields)
  {
    Adjust(PutNamed(t, fields))
  }

  /** The date in the form "YYYY-MM-DD". */
  function FormatDate(t: Time): string
    requires DateInRange(t)
  {
    ZeroPad(t.year, 4) + "-" + ZeroPad(t.month, 2) + "-" + ZeroPad(t.date, 2)
  }

  /** The clock part: "" for a Date, "hh:mm" for a Datetime, "hh:mm:ss" for a Timestamp. */
  function FormatTime(t: Time): string
    requires InRange(t)
  {
    match t.kind
    case DateType => ""
    case DatetimeType => ZeroPad(t.hour, 2) + ":" + ZeroPad(t.minute, 2)
    case TimestampType => ZeroPad(t.hour, 2) + ":" + ZeroPad(t.minute, 2) + ":" + ZeroPad(t.second, 2)
  }

  /** The text form: the date, then a space and the clock part for the kinds that have a clock. */
  function ToString(t: Time): string
    requires InRange(t)
  {
    if t.kind == DateType then FormatDate(t) else FormatDate(t) + " " + FormatTime(t)
  }

  /** Reads "YYYY-MM-DD" back as year, month and date. */
  function ReadDate(s: string): Option<(int, int, int)> {
    if |s| == 10 && AllDigits(s[..4]) && s[4] == '-' && AllDigits(s[5..7]) && s[7] == '-' && AllDigits(s[8..10])
    then Some((DigitsValue(s[..4]), DigitsValue(s[5..7]), DigitsValue(s[8..10])))
    else None
  }

  /** Reads "hh:mm" or "hh:mm:ss" back as hour, minute and second (0 when absent). */
  function ReadClock(s: string): Option<(int, int, int)> {
    if (|s| == 5 || |s| == 8) && AllDigits(s[..2]) && s[2] == ':' && AllDigits(s[3..5]) then
      if |s| == 5 then Some((DigitsValue(s[..2]), DigitsValue(s[3..5]), 0))
      else if s[5] == ':' && AllDigits(s[6..8]) then Some((DigitsValue(s[..2]), DigitsValue(s[3..5]), DigitsValue(s[6..8])))
      else None
    else None
  }

  /** Reads the text form back: a date alone is a Date, a date, a space and "hh:mm" a Datetime, and a
      date, a space and "hh:mm:ss" a Timestamp. */
  function ReadTime(s: string): Option<Time> {
    if |s| == 10 then
      match ReadDate(s)
      case Some((y, m, d)) => Some(Time(DateType, y, m, d, 0, 0, 0))
      case None => None
    else if (|s| == 16 || |s| == 19) && s[10] == ' ' then
      match (ReadDate(s[..10]), ReadClock(s[11..]))
      case (Some((y, m, d)), Some((h, mi, sec))) =>
        Some(Time(if |s| == 16 then DatetimeType else TimestampType, y, m, d, h, mi, sec))
      case _ => None
    else None
  }

  /** A field rendered at its width reads back as its value. */
  lemma PaddedField(n: nat, w: nat)
    requires (w == 2 && n < 100) || (w == 4 && n < 10000)
    ensures |ZeroPad(n, w)| == w && AllDigits(ZeroPad(n, w)) && DigitsValue(ZeroPad(n, w)) == n
  {
    assert Pow10(2) == 100;
    assert Pow10(4) == 10000;
    ZeroPadRoundTrip(n, w);
  }

  /** Three fields of widths 4, 2 and 2 joined by a separator. */
  lemma DateParts(s: string, a: string, b: string, c: string)
    requires |a| == 4 && |b| == 2 && |c| == 2 && s == a + "-" + b + "-" + c
    ensures |s| == 10 && s[..4] == a && s[4] == '-' && s[5..7] == b && s[7] == '-' && s[8..10] == c
  {
    assert s[..4] == a;
    assert s[5..7] == b;
  }

  /** The date text reads back as the date fields. */
  lemma DateText(t: Time)
    requires DateInRange(t)
    ensures |FormatDate(t)| == 10 && ReadDate(FormatDate(t)) == Some((t.year, t.month, t.date))
  {
    var a, b, c := ZeroPad(t.year, 4), ZeroPad(t.month, 2), ZeroPad(t.date, 2);
    PaddedField(t.year, 4);
    PaddedField(t.month, 2);
    PaddedField(t.date, 2);
    DateParts(FormatDate(t), a, b, c);
  }

  /** Two or three two-character fields separated by ':'. */
  lemma ClockParts(s: string, h: string, m: string, c: string, seconds: bool)
    requires |h| == 2 && |m| == 2 && |c| == 2
    requires s == if seconds then h + ":" + m + ":" + c else h + ":" + m
    ensures |s| >= 5 && s[..2] == h && s[2] == ':' && s[3..5] == m
    ensures seconds ==> |s| == 8 && s[5] == ':' && s[6..8] == c
    ensures !seconds ==> |s| == 5
  {
    assert (h + ":" + m)[..2] == h;
    if seconds {
      assert s[..5] == h + ":" + m;
    }
  }

  /** The clock text reads back as the clock fields. */
  lemma ClockText(t: Time)
    requires InRange(t) && t.kind != DateType
    ensures |FormatTime(t)| == (if t.kind == TimestampType then 8 else 5)
    ensures ReadClock(FormatTime(t)) == Some((t.hour, t.minute, t.second))
  {
    var h, m, c := ZeroPad(t.hour, 2), ZeroPad(t.minute, 2), ZeroPad(t.second, 2);
    PaddedField(t.hour, 2);
    PaddedField(t.minute, 2);
    PaddedField(t.second, 2);
    ClockParts(FormatTime(t), h, m, c, t.kind == TimestampType);
  }

  /** A date text, a space and a clock text read back as the fields of both. */
  lemma ReadJoined(s: string, d: string, c: string, date: (int, int, int), clock: (int, int, int))
    requires |d| == 10 && (|c| == 5 || |c| == 8) && s == d + " " + c
    requires ReadDate(d) == Some(date) && ReadClock(c) == Some(clock)
    ensures ReadTime(s) == Some(Time(if |c| == 5 then DatetimeType else TimestampType,
                                     date.0, date.1, date.2, clock.0, clock.1, clock.2))
  {
    assert s[..10] == d;
    assert s[11..] == c;
  }

  /** The text form reads back as the same time value. */
  lemma TextRoundTrip(t: Time)
    requires InRange(t)
    ensures ReadTime(ToString(t)) == Some(t)
  {
    DateText(t);
    if t.kind != DateType {
      ClockText(t);
      ReadJoined(ToString(t), FormatDate(t), FormatTime(t), (t.year, t.month, t.date), (t.hour, t.minute, t.second));
    }
  }
}
