/** The mutable field table a time value is built from: the constructor puts the given fields into
    it, the normalisation carries and borrows between its entries in place, and the new time value
    reads its fields back from it. Every method is proved against the pure normalisation of the
    Calendar module, so the properties proved there hold for the table too. */
module CalendarTable {
  import opened Calendar

  class FieldTable {
    const kind: Kind
    var year: int
    var month: int
    var date: int
    var hour: int
    var minute: int
    var second: int

    /** The table's current entries as a time value. */
    function Snapshot(): Time
      reads this
    {
      Time(kind, year, month, date, hour, minute, second)
    }

    /** A table holding the fields of `t`. */
    constructor (t: Time)
      ensures Snapshot() == t
    {
      kind := t.kind;
      year, month, date := t.year, t.month, t.date;
      hour, minute, second := t.hour, t.minute, t.second;
    }

    /** The entry of field `f`. */
    method GetEntry(f: Field) returns (v: int)
      ensures v == Get(Snapshot(), f)
    {
      match f
      case Year => v := year;
      case Month => v := month;
      case Date => v := date;
      case Hour => v := hour;
      case Minute => v := minute;
      case Second => v := second;
    }

    /** Sets the entry of field `f` to `v`; every other entry keeps its value. */
    method PutEntry(f: Field, v: int)
      modifies this
      ensures Snapshot() == Put(old(Snapshot()), f, v)
    {
      match f
      case Year => year := v;
      case Month => month := v;
      case Date => date := v;
      case Hour => hour := v;
      case Minute => minute := v;
      case Second => second := v;
    }

    /** One carry: the key entry drops by the adjuster's range width and the upper entry gains one. */
    method MoveUp(a: Adjuster)
      requires a.key != a.upper
      modifies this
      ensures Snapshot() == Calendar.MoveUp(old(Snapshot()), a)
    {
      var k := GetEntry(a.key);
      PutEntry(a.key, k - Width(a));
      var u := GetEntry(a.upper);
      PutEntry(a.upper, u + 1);
    }

    /** One borrow: the key entry gains the adjuster's range width and the upper entry loses one. */
    method MoveDown(a: Adjuster)
      requires a.key != a.upper
      modifies this
      ensures Snapshot() == Calendar.MoveDown(old(Snapshot()), a)
    {
      var k := GetEntry(a.key);
      PutEntry(a.key, k + Width(a));
      var u := GetEntry(a.upper);
      PutEntry(a.upper, u - 1);
    }

    /** The date part of the normalisation, one carry or borrow per call, then again on the result. */
    method AdjustDate()
      modifies this
      ensures Snapshot() == Calendar.AdjustDate(old(Snapshot()))
      decreases DateWeight(date), Dist(month, 1, 12)
    {
      year := WrapYear(year).0;
      if month < 1 {
        MoveDown(MonthAdjuster);
        AdjustDate();
      } else if 12 < month {
        MoveUp(MonthAdjuster);
        AdjustDate();
      } else if date < 1 {
        date := date + PrevMonthDays(year, month);
        month := month - 1;
        AdjustDate();
      } else if DaysInMonth(year, month) < date {
        date := date - DaysInMonth(year, month);
        month := month + 1;
        AdjustDate();
      }
    }

    /** The Datetime normalisation: the date part first, then one carry or borrow of the hour or
        else of the minute, then again on the result. */
    method AdjustDatetime()
      modifies this
      ensures Snapshot() == Calendar.AdjustDatetime(old(Snapshot()))
      decreases Dist(minute, 0, 59), Dist(hour, 0, 23)
    {
      ghost var t0 := Snapshot();
      AdjustDate();
      assert minute == t0.minute && hour == t0.hour;
      if hour < 0 {
        MoveDown(HourAdjuster);
        AdjustDatetime();
      } else if 23 < hour {
        MoveUp(HourAdjuster);
        AdjustDatetime();
      } else if minute < 0 {
        MoveDown(MinuteAdjuster);
        AdjustDatetime();
      } else if 59 < minute {
        MoveUp(MinuteAdjuster);
        AdjustDatetime();
      }
    }

    /** The Timestamp normalisation: the Datetime one first, then one carry or borrow of the second. */
    method AdjustTimestamp()
      modifies this
      ensures Snapshot() == Calendar.AdjustTimestamp(old(Snapshot()))
      decreases Dist(second, 0, 59)
    {
      ghost var t0 := Snapshot();
      AdjustDatetime();
      assert second == t0.second;
      if second < 0 {
        MoveDown(SecondAdjuster);
        AdjustTimestamp();
      } else if 59 < second {
        MoveUp(SecondAdjuster);
        AdjustTimestamp();
      }
    }

    /** The normalisation of the table's own kind; afterwards every entry is in range. */
    method Adjust()
      requires Shaped(Snapshot())
      modifies this
      ensures Snapshot() == Calendar.Adjust(old(Snapshot()))
      ensures InRange(Snapshot())
    {
      match kind
      case DateType => AdjustDate();
      case DatetimeType => AdjustDatetime();
      case TimestampType => AdjustTimestamp();
    }
  }

  /** Construction of a time value: the fields the kind carries are put into a new table, the table
      is normalised in place and the time value takes its fields from it. */
  method Construct(k: Kind, year: int, month: int, date: int, hour: int, minute: int, second: int)
    returns (t: Time)
    ensures t == Make(k, year, month, date, hour, minute, second)
    ensures t.kind == k && InRange(t)
    ensures InRange(Time(k, year, month, date, hour, minute, second)) ==>
              t == Time(k, year, month, date, hour, minute, second)
  {
    var table := new FieldTable(Time(k, year, month, date,
                                     if k == DateType then 0 else hour,
                                     if k == DateType then 0 else minute,
                                     if k == TimestampType then second else 0));
    table.Adjust();
    t := table.Snapshot();
  }
}
