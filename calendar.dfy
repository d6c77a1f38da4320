/** Time values of the DT package (Date, Datetime, Timestamp) and the normalisation that brings
    every field into its range, coarser fields first. */
module Calendar {

  /** The three kinds of time value; a Date has no clock fields, a Datetime no seconds. */
  datatype Kind = DateType | DatetimeType | TimestampType

  /** The type codes TYPE_DATE, TYPE_DATETIME and TYPE_TIMESTAMP. */
  function TypeCode(k: Kind): (c: int)
    ensures 1 <= c <= 3
    ensures k == DateType <==> c == 1
    ensures k == TimestampType <==> c == 3
  {
    match k
    case DateType => 1
    case DatetimeType => 2
    case TimestampType => 3
  }

  datatype Field = Year | Month | Date | Hour | Minute | Second

  /** Whether a time value of kind `k` carries the field `f`. */
  predicate HasField(k: Kind, f: Field) {
    match f
    case Year | Month | Date => true
    case Hour | Minute => k != DateType
    case Second => k == TimestampType
  }

  /** A time value as its field table. Fields its kind does not carry are held at 0. */
  datatype Time = Time(kind: Kind, year: int, month: int, date: int, hour: int, minute: int, second: int)

  function Get(t: Time, f: Field): int {
    match f
    case Year => t.year
    case Month => t.month
    case Date => t.date
    case Hour => t.hour
    case Minute => t.minute
    case Second => t.second
  }

  function Put(t: Time, f: Field, v: int): (r: Time)
    ensures Get(r, f) == v && r.kind == t.kind
    ensures forall g :: g != f ==> Get(r, g) == Get(t, g)
  {
    match f
    case Year => t.(year := v)
    case Month => t.(month := v)
    case Date => t.(date := v)
    case Hour => t.(hour := v)
    case Minute => t.(minute := v)
    case Second => t.(second := v)
  }

  /** The fields a kind does not carry are 0. */
  predicate Shaped(t: Time) {
    (t.kind == DateType ==> t.hour == 0 && t.minute == 0) && (t.kind != TimestampType ==> t.second == 0)
  }

  /** Divisible by 4 and not by 100, or divisible by 400 (the Gregorian rule). */
  predicate IsLeapYear(y: int) {
    if y % 400 == 0 then true else if y % 100 == 0 then false else y % 4 == 0
  }

  /** The number of days of month `m` of year `y` (getDateCount). */
  function DaysInMonth(y: int, m: int): (n: int)
    requires 1 <= m <= 12
    ensures 28 <= n <= 31
    ensures n == 28 <==> m == 2 && !IsLeapYear(y)
    ensures n == 29 <==> m == 2 && IsLeapYear(y)
    ensures n == 30 <==> m == 4 || m == 6 || m == 9 || m == 11
  {
    if m == 2 then (if IsLeapYear(y) then 29 else 28)
    else if m == 4 || m == 6 || m == 9 || m == 11 then 30
    else 31
  }

  /** Year 0..9999, month 1..12 and a date within the month. */
  predicate DateInRange(t: Time) {
    0 <= t.year <= 9999 && 1 <= t.month <= 12 && 1 <= t.date <= DaysInMonth(t.year, t.month)
  }

  predicate ClockInRange(t: Time) {
    0 <= t.hour <= 23 && 0 <= t.minute <= 59
  }

  /** Every field its kind carries lies in range; the others are 0. */
  predicate InRange(t: Time) {
    Shaped(t) && DateInRange(t) && ClockInRange(t) && 0 <= t.second <= 59
  }

  /** A FieldAdjuster: it keeps `key` within min..max by carrying into or borrowing from `upper`. */
  datatype Adjuster = Adjuster(key: Field, upper: Field, min: int, max: int)

  const MonthAdjuster := Adjuster(Month, Year, 1, 12)
  const HourAdjuster := Adjuster(Hour, Date, 0, 23)
  const MinuteAdjuster := Adjuster(Minute, Hour, 0, 59)
  const SecondAdjuster := Adjuster(Second, Minute, 0, 59)

  function Width(a: Adjuster): int {
    a.max - a.min + 1
  }

  /** One carry: the key field drops by the range width and the upper field gains one. */
  function MoveUp(t: Time, a: Adjuster): (r: Time)
    requires a.key != a.upper
    ensures Get(r, a.key) == Get(t, a.key) - Width(a) && Get(r, a.upper) == Get(t, a.upper) + 1
    ensures forall g :: g != a.key && g != a.upper ==> Get(r, g) == Get(t, g)
  {
    Put(Put(t, a.key, Get(t, a.key) - Width(a)), a.upper, Get(t, a.upper) + 1)
  }

  /** One borrow: the key field gains the range width and the upper field loses one. */
  function MoveDown(t: Time, a: Adjuster): (r: Time)
    requires a.key != a.upper
    ensures Get(r, a.key) == Get(t, a.key) + Width(a) && Get(r, a.upper) == Get(t, a.upper) - 1
    ensures forall g :: g != a.key && g != a.upper ==> Get(r, g) == Get(t, g)
  {
    Put(Put(t, a.key, Get(t, a.key) + Width(a)), a.upper, Get(t, a.upper) - 1)
  }

  /** How far `v` lies outside lo..hi. */
  function Dist(v: int, lo: int, hi: int): nat {
    if v < lo then lo - v else if v > hi then v - hi else 0
  }

  /** Shrinks with every carry or borrow of the date field. */
  function DateWeight(d: int): nat {
    if d < 1 then 64 - d else if d > 28 then d - 28 else 0
  }

  /** The days of the month before month `m` of year `y`: December of the year before for January. */
  function PrevMonthDays(y: int, m: int): (n: int)
    requires 1 <= m <= 12
    ensures 28 <= n <= 31
  {
    if m == 1 then 31 else DaysInMonth(y, m - 1)
  }

  /** The year `y` wrapped into 0..9999, with the number of whole 10000-year cycles taken off. */
  function WrapYear(y: int): (r: (int, int))
    ensures y == r.0 + 10000 * r.1 && 0 <= r.0 < 10000
    decreases if y < 0 then 10000 - y else y
  {
    if 0 <= y < 10000 then (y, 0)
    else if y >= 10000 then var p := WrapYear(y - 10000); (p.0, p.1 + 1)
    else var p := WrapYear(y + 10000); (p.0, p.1 - 1)
  }

  /** The wrapped year is the remainder of the year by 10000, never negative. */
  lemma WrapYearIsRemainder(y: int)
    ensures WrapYear(y).0 == y % 10000
  {
    var r := WrapYear(y);
    assert y == r.0 + 10000 * r.1;
    assert y / 10000 == r.1;
  }

  /** The date part of the normalisation: the year wraps into 0..9999, then an out-of-range month
      carries into the year, then an out-of-range date carries into the month, one step at a time,
      starting again after every step. */
  function AdjustDate(t: Time): (r: Time)
    ensures r.kind == t.kind && r.hour == t.hour && r.minute == t.minute && r.second == t.second
    ensures DateInRange(r)
    ensures DateInRange(t) ==> r == t
    decreases DateWeight(t.date), Dist(t.month, 1, 12)
  {
    var t := t.(year := WrapYear(t.year).0);
    if t.month < 1 then AdjustDate(MoveDown(t, MonthAdjuster))
    else if 12 < t.month then AdjustDate(MoveUp(t, MonthAdjuster))
    else if t.date < 1 then AdjustDate(t.(month := t.month - 1, date := t.date + PrevMonthDays(t.year, t.month)))
    else if DaysInMonth(t.year, t.month) < t.date then
      AdjustDate(t.(month := t.month + 1, date := t.date - DaysInMonth(t.year, t.month)))
    else t
  }

  /** The Datetime normalisation: the date part first, then one carry or borrow of the hour or else
      of the minute, starting again after every step. */
  function AdjustDatetime(t: Time): (r: Time)
    ensures r.kind == t.kind && r.second == t.second
    ensures DateInRange(r) && ClockInRange(r)
    ensures DateInRange(t) && ClockInRange(t) ==> r == t
    decreases Dist(t.minute, 0, 59), Dist(t.hour, 0, 23)
  {
    var t := AdjustDate(t);
    if t.hour < 0 then AdjustDatetime(MoveDown(t, HourAdjuster))
    else if 23 < t.hour then AdjustDatetime(MoveUp(t, HourAdjuster))
    else if t.minute < 0 then AdjustDatetime(MoveDown(t, MinuteAdjuster))
    else if 59 < t.minute then AdjustDatetime(MoveUp(t, MinuteAdjuster))
    else t
  }

  /** The Timestamp normalisation: the Datetime one first, then one carry or borrow of the second. */
  function AdjustTimestamp(t: Time): (r: Time)
    ensures r.kind == t.kind
    ensures DateInRange(r) && ClockInRange(r) && 0 <= r.second <= 59
    ensures DateInRange(t) && ClockInRange(t) && 0 <= t.second <= 59 ==> r == t
    decreases Dist(t.second, 0, 59)
  {
    var t := AdjustDatetime(t);
    if t.second < 0 then AdjustTimestamp(MoveDown(t, SecondAdjuster))
    else if 59 < t.second then AdjustTimestamp(MoveUp(t, SecondAdjuster))
    else t
  }

  /** The normalisation a time value of each kind applies to its field table. */
  function Adjust(t: Time): (r: Time)
    requires Shaped(t)
    ensures r.kind == t.kind && InRange(r)
    ensures InRange(t) ==> r == t
  {
    match t.kind
    case DateType => AdjustDate(t)
    case DatetimeType => AdjustDatetime(t)
    case TimestampType => AdjustTimestamp(t)
  }

  /** A time value of kind `k` built from the given fields; the ones `k` does not carry are dropped. */
  function Make(k: Kind, year: int, month: int, date: int, hour: int, minute: int, second: int): (t: Time)
    ensures t.kind == k && InRange(t)
  {
    Adjust(Time(k, year, month, date,
                if k == DateType then 0 else hour,
                if k == DateType then 0 else minute,
                if k == TimestampType then second else 0))
  }
}
