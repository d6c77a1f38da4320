# Peach core in Dafny

This project models the core of the PHP library Peach. It has six parts.

- **JSON decoder (`JsonCodec`).**
  - A `Context` holds the text and a cursor. Each grammar rule consumes text from the cursor and keeps its result.
  - The rules are `Number`, `Value` and `Root` (`JSON-text = ws value ws`, section 2 of RFC 7159).
  - `JsonSpec` is a pure reference decoder. Each method of `JsonDecoder.Context` is proved to return what that decoder returns and to leave the cursor where the decoder's rest begins.
  - `JsonLemmas` proves that decoding a canonical serialisation gives the value back. It also proves that trailing text is refused.
  - `JsonVectors` proves the examples of the `Number` and `Value` rules.
- **Calendar normalisation (`DT`).**
  - Time values are a `Date` (year, month, date), a `Datetime` (plus hour and minute) and a `Timestamp` (plus second).
  - Normalisation carries or borrows one range width at a time, coarser fields first. Years wrap into 0..9999.
  - `Calendar` holds the field arithmetic as functions. `CalendarTable.FieldTable` is the mutable field map, with adjust methods proved equal to those functions.
  - `CalendarSerial` numbers days and seconds. With it we prove that normalisation never moves the instant, except for the year wrap.
  - `Times` holds get/set/add by field name, comparison, the weekday and the text form. `TimeVectors` proves the `Date` examples.
- **`SimpleFormat`.** It covers:
  - checking the weekday-name list;
  - splitting a pattern into pattern letters and literal runs, with backslash escapes;
  - rendering each field with its zero padding;
  - reading a text back part by part.
- **`HttpDate`.** The header name must be a token. The value is the time shifted to GMT and written as an IMF-fixdate (section 7.1.1.1 of RFC 7231). `HttpDateVectors` proves the "Last-Modified" example.
- **`ArrayMap`, `ArrayMapEntry` and `Arrays`.**
  - The map is an insertion-ordered list of pairs, changed in place.
  - An entry writes through to its map.
  - `max`, `min`, `sort`, `asort` and `concat` are functions on sequences, proved against their order properties.
  - `unique` is stated as the contract its results meet, because which entry of a group of equal values survives depends on the order `asort` gives to equal values.
- **`Response`.** Headers are kept in an `ArrayMap` under lower-cased names. The response is malformed without a `:status` field (section 8.1.2.4 of RFC 7540).

PHP exceptions become `Result` failures and PHP `null` becomes `Option.None`. Numbers with a fraction or an exponent are kept exactly, as a mantissa and a power of ten.

Two details of the decoder are choices of this model, because the `Value` and `Context` sources it rests on are not part of it:
- Array elements and object members are separated by a required ',', as sections 4 and 5 of RFC 7159 demand.
- A repeated object key keeps its first position and takes the last value, as PHP array and property assignment do.

## Model

| member | source | states |
|---|---|---|
| JsonDecoder.RootRule.constructor | src/Peach/DF/JsonCodec/Root.php:44-47 | before `handle` runs, the result is null |
| JsonDecoder.RootRule.Handle | src/Peach/DF/JsonCodec/Root.php:54-68 | success exactly when the whole remaining text is `ws value ws`, with the value's result and the cursor at the end; otherwise the decode error, and the result field keeps its old value |
| JsonDecoder.Context.HandleRoot | src/Peach/DF/JsonCodec/Root.php:54-68 | whitespace, a value, whitespace and then the end of the input, with the result of the reference `Decode`; on success nothing is left |
| JsonDecoder.Context.HandleTrailing | src/Peach/DF/JsonCodec/Root.php:60-67 | after the value, trailing whitespace is skipped; any character left is an "unexpected character" error, and otherwise the value is the result |
| JsonDecoder.Context.SkipWhitespace | src/Peach/DF/JsonCodec/Root.php:56-60 | the cursor moves past exactly the leading whitespace |
| JsonLemmas.DecodeRoundTrip | src/Peach/DF/JsonCodec/Root.php:54-68 | any decodable value, written canonically with whitespace on either side, decodes to itself |
| JsonLemmas.TrailingRefused | src/Peach/DF/JsonCodec/Root.php:62-65 | a value followed by ',' ']' or '}' is refused at that character |
| JsonLemmas.DecodeTrailing | src/Peach/DF/JsonCodec/Root.php:62-65 | whenever a value is followed by a non-whitespace character, decoding fails with "unexpected character" at that character |
| JsonDecoder.NumberRule.constructor | test/Peach/DF/JsonCodec/NumberTest.php:37-41 | a new `Number` rule has result 0 |
| JsonDecoder.NumberRule.Handle | test/Peach/DF/JsonCodec/NumberTest.php:199-211 | the result and the cursor after `handle` are the number read by the reference grammar and the text after it; on error the result keeps its old value |
| JsonDecoder.Context.HandleNumber | test/Peach/DF/JsonCodec/NumberTest.php:199-211 | reads the number literal at the cursor as the reference `NumberAt` does and stops just after it |
| JsonDecoder.Context.HandleIntegralPart | test/Peach/DF/JsonCodec/NumberTest.php:126-131 | reads the integer digits, refusing a leading zero followed by a digit |
| JsonDecoder.Context.HandleFractionPart | test/Peach/DF/JsonCodec/NumberTest.php:141-146 | reads an optional '.' and its digits, refusing a '.' with no digit after it |
| JsonDecoder.Context.HandleExponentPart | test/Peach/DF/JsonCodec/NumberTest.php:156-161 | reads an optional 'e'/'E', sign and digits, refusing a marker with no digit after it |
| JsonSpec.IntegralPart | test/Peach/DF/JsonCodec/NumberTest.php:126-131 | a successful integral part is non-empty, consumes text and never starts with '0' unless it is "0" |
| JsonSpec.FractionPart | test/Peach/DF/JsonCodec/NumberTest.php:141-146 | fails exactly when the text starts with '.' and no digit follows; with no '.' it consumes nothing |
| JsonSpec.ExponentPart | test/Peach/DF/JsonCodec/NumberTest.php:156-161 | fails only at an exponent marker; with no marker it consumes nothing |
| JsonLemmas.NumberRoundTrip | test/Peach/DF/JsonCodec/NumberTest.php:48-116 | every number the decoder can produce, written canonically and followed by a delimiter, is read back as itself and the cursor stops at the delimiter |
| JsonLemmas.IntegerRoundTrip | test/Peach/DF/JsonCodec/NumberTest.php:172-187 | every integer literal reads back as that integer, or as its own digit string when BIGINT_AS_STRING is on and it lies outside the 32-bit range |
| JsonLemmas.FloatRoundTrip | test/Peach/DF/JsonCodec/NumberTest.php:83-116 | a literal with an exponent reads back as the exact value mantissa * 10^exponent, not as an integer |
| JsonVectors.ZeroVector | test/Peach/DF/JsonCodec/NumberTest.php:48-51 | "0," gives 0 and stops at ',' |
| JsonVectors.PositiveVector | test/Peach/DF/JsonCodec/NumberTest.php:63-66 | "135," gives 135 and stops at ',' |
| JsonVectors.NegativeVector | test/Peach/DF/JsonCodec/NumberTest.php:73-76 | "-100," gives -100 and stops at ',' |
| JsonVectors.FractionVectorZero | test/Peach/DF/JsonCodec/NumberTest.php:83-86 | "0.0625," gives the non-integer 625 * 10^-4 and stops at ',' |
| JsonVectors.ExponentPlusVector | test/Peach/DF/JsonCodec/NumberTest.php:93-96 | "713.5E+5," gives the non-integer 7135 * 10^4 |
| JsonVectors.ExponentMinusVector | test/Peach/DF/JsonCodec/NumberTest.php:103-106 | "15625E-6," gives the non-integer 15625 * 10^-6 |
| JsonVectors.ExponentBigVector | test/Peach/DF/JsonCodec/NumberTest.php:113-116 | "1.5E15," gives the non-integer 15 * 10^14 |
| JsonVectors.LeadingZeroVector | test/Peach/DF/JsonCodec/NumberTest.php:126-131 | "0123" fails with a leading-zero error |
| JsonVectors.NoFractionDigitVector | test/Peach/DF/JsonCodec/NumberTest.php:141-146 | "3.xyz" fails because a digit is expected after '.' |
| JsonVectors.NoExponentDigitVector | test/Peach/DF/JsonCodec/NumberTest.php:156-161 | "1.0exyz" fails because a digit is expected after the exponent marker |
| JsonVectors.SmallOptionVector | test/Peach/DF/JsonCodec/NumberTest.php:172-182 | ±54321 stay integers whether BIGINT_AS_STRING is on or off |
| JsonVectors.BigOptionVector | test/Peach/DF/JsonCodec/NumberTest.php:183-186 | ±1234567890123456 is an integer with the option off and its exact digit string with the option on |
| JsonDecoder.ValueRule.constructor | test/Peach/DF/JsonCodec/ValueTest.php:36-40 | a new `Value` rule has a null result |
| JsonDecoder.ValueRule.Handle | test/Peach/DF/JsonCodec/ValueTest.php:52-58 | the result and the cursor after `handle` are the value read by the reference grammar and the text after it; on error the result keeps its old value |
| JsonDecoder.Context.HandleValue | test/Peach/DF/JsonCodec/ValueTest.php:52-126 | dispatches on the first character to a literal, string, number, array or object exactly as the reference `ValueAt` does |
| JsonDecoder.Context.HandleLiteral | test/Peach/DF/JsonCodec/ValueTest.php:189-194 | reads `true`, `false` or `null` and stops right after the keyword; any other word is an invalid literal |
| JsonDecoder.Context.HandleString | test/Peach/DF/JsonCodec/ValueTest.php:105-111 | reads a quoted string with its escapes, as `StringAt` does, and stops just after the closing quote |
| JsonDecoder.Context.HandleEscape | test/Peach/DF/JsonCodec/ValueTest.php:105-111 | reads one escape sequence of section 7 of RFC 7159, as `EscapeAt` does |
| JsonDecoder.Context.HandleArray | test/Peach/DF/JsonCodec/ValueTest.php:135-142 | reads '[' elements ']' with whitespace around the structural characters, as `ArrayAt` does |
| JsonDecoder.Context.HandleObject | test/Peach/DF/JsonCodec/ValueTest.php:151-166 | reads '{' members '}' with whitespace around the structural characters, as `ObjectAt` does |
| JsonDecoder.Context.HandleMember | test/Peach/DF/JsonCodec/ValueTest.php:151-166 | reads one name and its ':', then the value; either continues the members or closes the object, in agreement with `MembersAt` |
| JsonDecoder.Context.HandleMemberValue | test/Peach/DF/JsonCodec/ValueTest.php:151-166 | reads one member value and the ',' or '}' after it, in agreement with `MemberValueAt` |
| JsonValue.PutReplaces | test/Peach/DF/JsonCodec/ValueTest.php:151-166 | storing a member replaces the first member of that name in place, or appends a new one |
| JsonLemmas.ValueRoundTrip | test/Peach/DF/JsonCodec/ValueTest.php:52-166 | every decodable value written canonically is read back as itself, and the cursor stops after it and, for arrays and objects, after the whitespace that follows |
| JsonLemmas.StringRoundTrip | test/Peach/DF/JsonCodec/ValueTest.php:105-111 | any string, quoted and escaped, reads back as itself |
| JsonLemmas.EscapeRoundTrip | test/Peach/DF/JsonCodec/ValueTest.php:105-111 | the escaped body of any string, up to the closing quote, reads back as the string |
| JsonLemmas.ArrayRoundTrip | test/Peach/DF/JsonCodec/ValueTest.php:135-142 | any array of decodable values reads back with its items in order, and trailing whitespace is consumed |
| JsonLemmas.ObjectRoundTrip | test/Peach/DF/JsonCodec/ValueTest.php:151-166 | any object with distinct names reads back with its members in order, and trailing whitespace is consumed |
| JsonVectors.TrueVector | test/Peach/DF/JsonCodec/ValueTest.php:52-58 | "true}" gives true and stops at '}' |
| JsonVectors.FalseVector | test/Peach/DF/JsonCodec/ValueTest.php:71-77 | "false," gives false and stops at ',' |
| JsonVectors.NullVector | test/Peach/DF/JsonCodec/ValueTest.php:90-96 | "null{" gives null and stops at '{' |
| JsonVectors.StringVector | test/Peach/DF/JsonCodec/ValueTest.php:105-111 | "\"Test\"," gives the string Test and stops at ',' |
| JsonVectors.NumberValueVector | test/Peach/DF/JsonCodec/ValueTest.php:120-126 | "3e+5," is handed to the number rule and gives 3 * 10^5 |
| JsonVectors.UnexpectedVector | test/Peach/DF/JsonCodec/ValueTest.php:175-180 | "asdf" fails with "unexpected character" at 'a' |
| JsonVectors.LiteralFailVector | test/Peach/DF/JsonCodec/ValueTest.php:189-194 | "trap" fails as an invalid literal |
| Calendar.TypeCode | test/Peach/DT/DateTest.php:87-91 | the type codes are 1, 2 and 3, with Date the 1 and Timestamp the 3 |
| Calendar.Put | src/Peach/DT/Datetime.php:97-102 | putting a field sets that field and keeps all the others |
| Calendar.DaysInMonth | test/Peach/DT/DateTest.php:214-225 | 28 only for February of a common year, 29 only for February of a leap year, 30 for April, June, September and November, otherwise 31 |
| Calendar.MoveUp | src/Peach/DT/Datetime.php:272-290 | the field loses one range width and the coarser field gains one; nothing else changes |
| Calendar.MoveDown | src/Peach/DT/Datetime.php:272-290 | the field gains one range width and the coarser field loses one; nothing else changes |
| Calendar.WrapYear | test/Peach/DT/DateTest.php:413-426 | the year is split into a year in 0..9999 and a number of whole 10000-year turns |
| Calendar.WrapYearIsRemainder | test/Peach/DT/DateTest.php:413-426 | the wrapped year is the year modulo 10000 |
| Calendar.AdjustDate | test/Peach/DT/DateTest.php:427-458 | the result has year, month and date in range and the same clock; a date already in range is unchanged |
| Calendar.AdjustDatetime | src/Peach/DT/Datetime.php:129-150 | the result has date, hour and minute in range and the same second; a value already in range is unchanged |
| Calendar.AdjustTimestamp | src/Peach/DT/Datetime.php:129-150 | the second is carried the same way, one level finer: every field ends in range, and a value already in range is unchanged |
| Calendar.Adjust | src/Peach/DT/Datetime.php:129-150 | every field the kind carries ends in range, and an in-range value is its own normal form |
| Calendar.Make | src/Peach/DT/Datetime.php:95-104 | a constructed value has the requested kind and is in range |
| CalendarTable.Construct | src/Peach/DT/Datetime.php:95-104 | builds the field table, normalises it and returns `Make`; in-range arguments come back unchanged |
| CalendarTable.FieldTable.constructor | src/Peach/DT/Datetime.php:118-123 | the table holds exactly the given fields |
| CalendarTable.FieldTable.GetEntry | src/Peach/DT/Datetime.php:134-135 | returns the stored value of the field |
| CalendarTable.FieldTable.PutEntry | src/Peach/DT/Datetime.php:97-102 | the table afterwards is `Put` of the old table |
| CalendarTable.FieldTable.MoveUp | src/Peach/DT/Datetime.php:140 | the table afterwards is `Calendar.MoveUp` of the old table |
| CalendarTable.FieldTable.MoveDown | src/Peach/DT/Datetime.php:138 | the table afterwards is `Calendar.MoveDown` of the old table |
| CalendarTable.FieldTable.AdjustDate | test/Peach/DT/DateTest.php:427-458 | the table afterwards is `Calendar.AdjustDate` of the old table |
| CalendarTable.FieldTable.AdjustDatetime | src/Peach/DT/Datetime.php:129-150 | the recursive carry of hours and minutes leaves `Calendar.AdjustDatetime` of the old table |
| CalendarTable.FieldTable.AdjustTimestamp | src/Peach/DT/Datetime.php:129-150 | the table afterwards is `Calendar.AdjustTimestamp` of the old table |
| CalendarTable.FieldTable.Adjust | src/Peach/DT/Datetime.php:129-150 | the table afterwards is `Calendar.Adjust` of the old table and in range |
| CalendarSerial.AdjustDateKeepsDay | test/Peach/DT/DateTest.php:443-458 | the date carry names the same day modulo the 10000-year wrap |
| CalendarSerial.AdjustDatetimeKeepsSecond | src/Peach/DT/Datetime.php:137-149 | the hour and minute carries name the same instant modulo the year wrap |
| CalendarSerial.AdjustTimestampKeepsSecond | src/Peach/DT/Datetime.php:129-150 | the second carry names the same instant modulo the year wrap |
| Times.AdjustKeepsSecond | src/Peach/DT/Datetime.php:129-150 | normalisation as a whole names the same instant modulo the year wrap |
| CalendarSerial.SerialOrder | test/Peach/DT/DateTest.php:312-325 | a date earlier in field order has a smaller day number |
| CalendarSerial.SerialInjective | test/Peach/DT/DateTest.php:346-356 | two in-range dates naming the same day have the same fields |
| Times.FieldOf | test/Peach/DT/DateTest.php:386-402 | a name selects year by 'y', month by 'mo', date by 'd', hour by 'h', minute by any other 'm', second by 's', ignoring case; nothing else selects a field |
| Times.FieldNameSelects | test/Peach/DT/DateTest.php:390-392 | each field's own name selects that field |
| Times.GetByName | test/Peach/DT/DateTest.php:386-402 | `get` gives a field's value exactly when the name selects a field the kind carries, otherwise null |
| Times.SetField | test/Peach/DT/DateTest.php:410-458 | setting a carried field gives an in-range value, equal to the plain update when that is in range; setting a field the kind lacks changes nothing |
| Times.Set | test/Peach/DT/DateTest.php:410-460 | `set` by a name that selects no field returns the value unchanged; otherwise it is `SetField` |
| Times.AddField | test/Peach/DT/DateTest.php:237-253 | `add` is `set` of the current value plus the amount; a field the kind lacks changes nothing |
| Times.AddIsSet | test/Peach/DT/DateTest.php:237-253 | for any name, `add` equals `set` of `get` plus the amount, and is the identity when `get` is null |
| Times.AddMovesInstant | test/Peach/DT/DateTest.php:244-248 | adding k units of a date or clock field moves the instant by k times that unit |
| Times.AddDays | test/Peach/DT/DateTest.php:244-248 | adding k days keeps the clock and moves the day number by k |
| Times.AddDaysTo | test/Peach/DT/DateTest.php:244-248 | adding k days gives exactly the value whose day number is k further on, with the same clock |
| Times.AddFieldTo | test/Peach/DT/DateTest.php:244-248 | adding k units of a date or clock field gives exactly the in-range value that lies k units further on |
| Times.GetDay | test/Peach/DT/DateTest.php:166-180 | the weekday is a number 0..6 |
| Times.WeekdayOf | test/Peach/DT/DateTest.php:166-180 | the weekday is the proleptic Gregorian day count plus six, modulo 7 (Sunday is 0) |
| Times.AddDaysWeekday | test/Peach/DT/DateTest.php:166-180 | adding k days moves the weekday by k modulo 7 |
| Times.CompareToIsKeyOrder | test/Peach/DT/DateTest.php:312-335 | `compareTo` is negative, zero or positive exactly when the first value comes before, equals or comes after the second in field order, ties broken by the kind with fewer fields |
| Times.BeforeAfter | test/Peach/DT/DateTest.php:262-300 | `before(a, b)` holds exactly when `after(b, a)` does; of two values exactly one of before, equal or after holds |
| Times.BeforeTransitive | test/Peach/DT/DateTest.php:262-300 | `before` is transitive |
| Times.CompareTo | test/Peach/DT/DateTest.php:312-335 | the comparison of two times; `Times.CompareToIsKeyOrder` states that its sign follows field order, ties broken by the kind with fewer fields |
| Times.Before | test/Peach/DT/DateTest.php:286-300 | `before` holds when `compareTo` is negative; `Times.BeforeAfter` and `Times.BeforeTransitive` state that it is a strict order with `after` as its converse |
| Times.After | test/Peach/DT/DateTest.php:262-285 | `after` holds when `compareTo` is positive; `Times.BeforeAfter` states that `after(a, b)` is `before(b, a)` |
| Times.Convert | src/Peach/DT/Datetime.php:251-265 | a conversion keeps the shared fields, sets the added ones to 0 and keeps the value in range |
| Times.ConvertWidens | test/Peach/DT/DateTest.php:139-158 | widening and narrowing back gives the value again; the wider copy compares equal in fields and comes after the narrower one |
| Times.SetAll | test/Peach/DT/DateTest.php:471-485 | `setAll` puts every named field and then normalises; when the puts leave the value in range, that is the result |
| Times.PutNamedKeeps | test/Peach/DT/DateTest.php:471-485 | a field named by no entry keeps its value |
| Times.PutNamedLast | test/Peach/DT/DateTest.php:471-485 | a field named by the last entry takes that entry's value |
| Times.DateText | test/Peach/DT/DateTest.php:98-113 | the date text has ten characters and reads back as the year, month and date |
| Times.ClockText | src/Peach/DT/Datetime.php:226-231 | the clock text is "hh:mm" for a Datetime and "hh:mm:ss" for a Timestamp, and reads back as the clock fields |
| Times.TextRoundTrip | src/Peach/DT/Datetime.php:239-243 | the text form (date, a space and the clock) reads back as the same value |
| Text.ZeroPadRoundTrip | src/Peach/DT/Datetime.php:228-229 | a zero-padded number consists of digits, has the requested width when it fits, and reads back as the number |
| TimeVectors.SetYearVectors | test/Peach/DT/DateTest.php:413-426 | years 2013 and 999 are set as given; 10000 wraps to 0 and -1 to 9999 |
| TimeVectors.SetMonthVectors | test/Peach/DT/DateTest.php:427-442 | months 10, 13, 26, 0 and -13 give 2012-10, 2013-01, 2014-02, 2011-12 and 2010-11 |
| TimeVectors.SetDateForwardVectors | test/Peach/DT/DateTest.php:443-458 | dates 32 and 64 give 2012-06-01 and 2012-07-03 |
| TimeVectors.SetDateBackVectors | test/Peach/DT/DateTest.php:443-458 | dates 0, -29 and -59 give 2012-04-30, 2012-04-01 and 2012-03-02 |
| TimeVectors.SetIgnoredName | test/Peach/DT/DateTest.php:459 | `set("foobar", 10)` leaves the date unchanged |
| TimeVectors.LeapYearVectors | test/Peach/DT/DateTest.php:194-206 | 2011 and 2100 are common years; 2008 and 2000 are leap years |
| TimeVectors.DateCountVectors | test/Peach/DT/DateTest.php:214-225 | July 2011 has 31 days, November 2009 30, February 2010 28 and February 2012 29 |
| TimeVectors.AddVectors | test/Peach/DT/DateTest.php:237-251 | the year, month and date additions of the example, and the clock fields a Date ignores |
| TimeVectors.AddYearBack | test/Peach/DT/DateTest.php:247 | 2012-05-21 minus 366 days is 2011-05-21 |
| TimeVectors.AddYearOn | test/Peach/DT/DateTest.php:248 | 2012-05-21 plus 365 days is 2013-05-21 |
| TimeVectors.AddClockName | test/Peach/DT/DateTest.php:250-251 | adding minutes or seconds to a Date leaves it unchanged |
| TimeVectors.AddIgnoredName | test/Peach/DT/DateTest.php:252 | `add("asdf", 20)` leaves the date unchanged |
| TimeVectors.SetAllYearDate | test/Peach/DT/DateTest.php:473-475 | year 2015 and date 10 give 2015-05-10 |
| TimeVectors.SetAllMonthDate | test/Peach/DT/DateTest.php:477-481 | month 12 and date 31 give 2012-12-31 |
| TimeVectors.SetAllCoarseFirst | test/Peach/DT/DateTest.php:483-484 | 2011-14-31 becomes 2012-02-31 and then 2012-03-02 |
| TimeVectors.GetDaySunday | test/Peach/DT/DateTest.php:169 | 1990-04-01 is a Sunday (0) |
| TimeVectors.GetDayMonday | test/Peach/DT/DateTest.php:170 | 1996-03-18 is a Monday (1) |
| TimeVectors.GetDayTuesday | test/Peach/DT/DateTest.php:171 | 1999-04-06 is a Tuesday (2) |
| TimeVectors.GetDayWednesday | test/Peach/DT/DateTest.php:172 | 2002-07-10 is a Wednesday (3) |
| TimeVectors.GetDayThursday | test/Peach/DT/DateTest.php:173 | 2006-01-05 is a Thursday (4) |
| TimeVectors.GetDayFriday | test/Peach/DT/DateTest.php:174 | 2008-06-13 is a Friday (5) |
| TimeVectors.GetDaySaturday | test/Peach/DT/DateTest.php:175 | 2010-07-24 is a Saturday (6) |
| TimeVectors.GetYearByName | test/Peach/DT/DateTest.php:390 | every name starting with 'y' or 'Y' gets the year |
| TimeVectors.GetMonthByName | test/Peach/DT/DateTest.php:391 | every name starting with "mo" in any case gets the month |
| TimeVectors.GetDateByName | test/Peach/DT/DateTest.php:392 | every name starting with 'd' or 'D' gets the date |
| TimeVectors.GetInvalidName | test/Peach/DT/DateTest.php:393-401 | "m", "hour", "min", "sec", "" and "foo" get null from a Date |
| TimeVectors.CompareVectors | test/Peach/DT/DateTest.php:312-334 | the signs of `compareTo` in the example, including the values one year, five months and three days away |
| TimeVectors.BeforeAfterVectors | test/Peach/DT/DateTest.php:262-300 | the `before`/`after` answers of the example; a Date is before the Datetime and Timestamp of the same day |
| TimeVectors.EqualsVectors | test/Peach/DT/DateTest.php:346-356 | a Date differs from another date and from a Timestamp of the same day, though their shared fields compare equal |
| TimeVectors.ConvertVectors | test/Peach/DT/DateTest.php:122-158 | `toDate`, `toDatetime` and `toTimestamp` of 2012-05-21 keep the date and give a zero clock |
| TimeVectors.TextOf20110501 | test/Peach/DT/DateTest.php:101-111 | 2011-05-01 is written "2011-05-01" |
| TimeVectors.TextOf20001231 | test/Peach/DT/DateTest.php:102-111 | 2000-12-31 is written "2000-12-31" |
| TimeVectors.TextOf18631119 | test/Peach/DT/DateTest.php:103-111 | 1863-11-19 is written "1863-11-19" |
| TimeVectors.TextOf20120521 | test/Peach/DT/DateTest.php:364-378 | 2012-05-21 is written "2012-05-21" and a Date's clock text is empty |
| SimpleFormat.InitDayList | src/Peach/DT/SimpleFormat.php:144-158 | the list is accepted exactly when it has at least seven entries and none of the first seven is empty; entries after the seventh are dropped; a failure names the count or the first empty index |
| SimpleFormat.CreateContext | src/Peach/DT/SimpleFormat.php:352-380 | the loop's parts are `Parts(format)`: they join back to the pattern, none is empty, and the one-letter parts are exactly the unescaped pattern letters |
| SimpleFormat.RunFlatten | src/Peach/DT/SimpleFormat.php:358-375 | at every step the finished parts and the current run join to the pattern read so far |
| SimpleFormat.RunEscaped | src/Peach/DT/SimpleFormat.php:360-365 | the next character is escaped exactly when the text read so far ends in an odd number of backslashes |
| SimpleFormat.PartsFlatten | src/Peach/DT/SimpleFormat.php:352-380 | the parts joined together give back the pattern |
| SimpleFormat.PartsNonEmpty | src/Peach/DT/SimpleFormat.php:366-377 | no part is empty |
| SimpleFormat.PartsLetters | src/Peach/DT/SimpleFormat.php:366-371 | the one-letter parts, in order, are exactly the pattern letters not preceded by an escaping backslash |
| SimpleFormat.EscapeKeepsLiteral | src/Peach/DT/SimpleFormat.php:360-365 | a backslash and the character after it join the literal run, even when that character is a pattern letter |
| SimpleFormat.LetterSplits | src/Peach/DT/SimpleFormat.php:366-371 | an unescaped pattern letter closes the run and becomes a part of its own |
| SimpleFormat.FormatKeyReadsBack | src/Peach/DT/SimpleFormat.php:314-336 | each numeric letter renders the digits of its field: Y four wide, m d H i s two wide, n j G f b without padding |
| SimpleFormat.FormatKeyWeekday | src/Peach/DT/SimpleFormat.php:337-338 | E renders the day-list entry of the weekday, and k days later the entry k places on |
| SimpleFormat.StripAddSlashes | src/Peach/DT/SimpleFormat.php:244 | `stripslashes` undoes `addslashes` for every text |
| SimpleFormat.RenderLiteral | src/Peach/DT/SimpleFormat.php:243-246 | a pattern with no letters or backslashes renders as itself |
| SimpleFormat.FormatTimestamp | src/Peach/DT/SimpleFormat.php:239-248 | the loop renders the parts in order, a letter by `formatKey` and literal text with backslashes stripped |
| SimpleFormat.FormatValue | src/Peach/DT/SimpleFormat.php:219-232 | a Date or Datetime renders as its Timestamp conversion |
| SimpleFormat.MissingFieldsZero | src/Peach/DT/SimpleFormat.php:219-232 | a field the value lacks renders as 0 |
| SimpleFormat.InterpretText | src/Peach/DT/SimpleFormat.php:388-403 | the loop matches the parts left to right on the shrinking input and stops at the first part that matches nothing |
| SimpleFormat.FormatKey | src/Peach/DT/SimpleFormat.php:305-338 | the text of one pattern letter; `SimpleFormat.FormatKeyReadsBack` and `SimpleFormat.FormatKeyWeekday` state that it reads back as its field |
| SimpleFormat.StripSlashes | src/Peach/DT/SimpleFormat.php:244 | PHP's `stripslashes`; `SimpleFormat.StripAddSlashes` states that it undoes `addslashes` |
| SimpleFormat.Render | src/Peach/DT/SimpleFormat.php:239-248 | the parts rendered in order; `SimpleFormat.FormatTimestamp` states that the loop computes it and `SimpleFormat.RenderLiteral` that literal text renders as itself |
| SimpleFormat.Interpret | src/Peach/DT/SimpleFormat.php:388-403 | the parts matched in order on the shrinking input; `SimpleFormat.InterpretText` states that the loop computes it and `SimpleFormat.InterpretConsumes` that the matches form a prefix of the input |
| SimpleFormat.InterpretConsumes | src/Peach/DT/SimpleFormat.php:393-401 | with a prefix matcher, success has one match per part and the matches form a prefix of the input; a failure reports the unread rest of the input |
| SimpleFormat.NewFormat | src/Peach/DT/SimpleFormat.php:127-134 | the constructor succeeds exactly when the day list is accepted, keeping the pattern, the first seven names and the pattern's parts |
| SimpleFormat.DefaultDaysAccepted | src/Peach/DT/SimpleFormat.php:125-127 | the default weekday names, "Sun" to "Sat", pass `initDayList` unchanged |
| SimpleFormat.NewDefaultFormat | src/Peach/DT/SimpleFormat.php:127-134 | a format built from a pattern alone cannot fail; it gets the weekday names "Sun" to "Sat" and the pattern's parts |
| HttpDate.NewHttpDate | test/Peach/Http/Header/HttpDateTest.php:39-53 | the header is created exactly when the name is a token, and keeps the name (`getName`), time and offset unchanged |
| HttpDate.NameVectors | test/Peach/Http/Header/HttpDateTest.php:39-53 | "Valid-Name" and "Last-Modified" are tokens; "Invalid/Name" is not |
| HttpDate.ToGmtShift | test/Peach/Http/Header/HttpDateTest.php:19-24 | the GMT time lies `offset` minutes from the local time |
| HttpDate.ToGmt | test/Peach/Http/Header/HttpDateTest.php:19-24 | the GMT time is an in-range timestamp; `HttpDate.ToGmtShift` states that it lies `offset` minutes from the local time |
| HttpDate.FixDate | test/Peach/Http/Header/HttpDateTest.php:58-61 | the IMF-fixdate text; `HttpDate.FixDateShape` states its layout and that each field reads back |
| HttpDate.GetName | test/Peach/Http/Header/HttpDateTest.php:62-68 | the name the header was built with; `HttpDate.NewHttpDate` states that it is the name given to the constructor |
| HttpDate.Format | test/Peach/Http/Header/HttpDateTest.php:58-61 | the time shifted to GMT and written as IMF-fixdate; `HttpDateVectors.FormatVector` states the example's text |
| HttpDate.FixDateShape | test/Peach/Http/Header/HttpDateTest.php:58-61 | the text is 29 characters: weekday name, two-digit date, month name, four-digit year, hh:mm:ss and " GMT" at fixed places, each reading back as its field |
| HttpDateVectors.ShiftVector | test/Peach/Http/Header/HttpDateTest.php:21-23 | 2012-05-21 08:34:45 shifted by -540 minutes is 2012-05-20 23:34:45 |
| HttpDateVectors.SundayVector | test/Peach/Http/Header/HttpDateTest.php:58-61 | 2012-05-20 is a Sunday |
| HttpDateVectors.FixDateVector | test/Peach/Http/Header/HttpDateTest.php:58-61 | 2012-05-20 23:34:45 is written "Sun, 20 May 2012 23:34:45 GMT" |
| HttpDateVectors.FormatVector | test/Peach/Http/Header/HttpDateTest.php:58-61 | the example header formats as "Sun, 20 May 2012 23:34:45 GMT" |
| ArrayMaps.ArrayMap.constructor | test/Peach/Util/ArrayMapTest.php:36-42 | a new map is empty |
| ArrayMaps.ArrayMap.FromPairs | test/Peach/Util/ArrayMapTest.php:36-46 | a map built from an array holds its pairs in order |
| ArrayMaps.NewArrayMap | test/Peach/Util/ArrayMapTest.php:36-64 | no argument gives an empty map, an array or map gives its pairs, and any other argument raises InvalidArgumentException |
| ArrayMaps.Fixture | test/Peach/Util/ArrayMapTest.php:15-26 | the map key1 => foo, key2 => bar, key3 => baz, in that order |
| ArrayMaps.ArrayMap.Get | test/Peach/Util/ArrayMapTest.php:75-83 | returns the value stored under the key, or the default (null when none is given) |
| ArrayMaps.ArrayMap.Put | test/Peach/Util/ArrayMapTest.php:92-98 | the pairs afterwards are `Assign` of the old pairs |
| ArrayMaps.AssignLookup | test/Peach/Util/ArrayMapTest.php:92-98 | after `put`, the key gives the new value and every other key what it gave before |
| ArrayMaps.AssignExisting | test/Peach/Util/ArrayMapTest.php:92-98 | `put` on an existing key overwrites the value in its position |
| ArrayMaps.AssignNew | test/Peach/Util/ArrayMapTest.php:109-125 | `put` of a new key appends the pair at the end |
| ArrayMaps.AssignKeys | test/Peach/Util/ArrayMapTest.php:109-125 | `put` keeps the key order and appends a key only when it is new |
| ArrayMaps.AssignDistinct | test/Peach/Util/ArrayMapTest.php:92-98 | `put` keeps keys distinct |
| ArrayMaps.AssignSize | test/Peach/Util/ArrayMapTest.php:179-182 | `put` grows the size by one exactly when the key is new |
| ArrayMaps.ArrayMap.PutAll | test/Peach/Util/ArrayMapTest.php:109-125 | the pairs afterwards are the other map's pairs put one by one, in order |
| ArrayMaps.AssignAllLookup | test/Peach/Util/ArrayMapTest.php:109-125 | after `putAll`, a key of the other map gives its value there and any other key what it gave before |
| ArrayMaps.AssignAllKeys | test/Peach/Util/ArrayMapTest.php:109-125 | after `putAll`, existing keys keep their positions and the new keys follow in the other map's order |
| ArrayMaps.AssignAllDistinct | test/Peach/Util/ArrayMapTest.php:109-125 | `putAll` keeps keys distinct |
| ArrayMaps.PutAllVector | test/Peach/Util/ArrayMapTest.php:109-125 | the example: key3 is updated in place and test1, test2 are appended |
| ArrayMaps.ArrayMap.ContainsKey | test/Peach/Util/ArrayMapTest.php:137-143 | true exactly when some pair has the key, whatever its value |
| ArrayMaps.LookupFound | test/Peach/Util/ArrayMapTest.php:137-143 | a lookup finds something exactly when the key is among the keys |
| ArrayMaps.ArrayMap.Remove | test/Peach/Util/ArrayMapTest.php:153-160 | the pairs afterwards are the old pairs without the key |
| ArrayMaps.UnsetLookup | test/Peach/Util/ArrayMapTest.php:153-160 | after `remove`, the key is absent and every other key gives what it gave before |
| ArrayMaps.UnsetSize | test/Peach/Util/ArrayMapTest.php:153-160 | removing an absent key changes nothing; removing a present one lowers the size by one |
| ArrayMaps.UnsetDistinct | test/Peach/Util/ArrayMapTest.php:153-160 | `remove` keeps keys distinct and adds none |
| ArrayMaps.RemoveVector | test/Peach/Util/ArrayMapTest.php:153-160 | removing key4 changes nothing; removing key3 leaves two pairs and no key3 |
| ArrayMaps.ArrayMap.Clear | test/Peach/Util/ArrayMapTest.php:167-172 | the map is empty afterwards |
| ArrayMaps.ArrayMap.Size | test/Peach/Util/ArrayMapTest.php:179-182 | the number of pairs |
| ArrayMaps.ArrayMap.Keys | test/Peach/Util/ArrayMapTest.php:189-194 | the keys in insertion order |
| ArrayMaps.ArrayMap.Values | test/Peach/Util/ArrayMapTest.php:201-206 | the values in insertion order |
| ArrayMaps.ArrayMap.EntryList | test/Peach/Util/ArrayMapTest.php:216-223 | one new entry per pair, in order, with the pair's key and value and this map as owner |
| ArrayMaps.ArrayMap.AsArray | test/Peach/Util/ArrayMapTest.php:230-238 | the pairs in insertion order, keys distinct |
| ArrayMaps.ArrayMapEntry.constructor | test/Peach/Util/ArrayMapEntryTest.php:41-47 | the entry holds the key, the value and its map |
| ArrayMaps.ArrayMapEntry.SetValue | test/Peach/Util/ArrayMapEntryTest.php:57-63 | the entry takes the value and the owning map is updated at the entry's key |
| ArrayMaps.WriteThrough | test/Peach/Util/ArrayMapEntryTest.php:57-63 | writing through an entry changes that key's value only and keeps the key order |
| ArrayMaps.SetValueVector | test/Peach/Util/ArrayMapEntryTest.php:57-63 | setting key1 to hoge gives key1 => hoge, key2 => bar, key3 => baz |
| ArrayMaps.ArrayMapEntry.ToString | test/Peach/Util/ArrayMapEntryTest.php:90-93 | the text is '[' key '=' value ']' |
| Arrays.IntOrder | test/Peach/Util/ArraysTest.php:51-52 | the natural comparison of integers is a total preorder |
| Arrays.RankOrder | test/Peach/Util/ArraysTest.php:64-66 | a comparator that compares ranks is a total preorder |
| Arrays.Top | test/Peach/Util/ArraysTest.php:49-99 | the scan gives null exactly for an empty array and otherwise one of its elements |
| Arrays.MaxIsGreatest | test/Peach/Util/ArraysTest.php:49-67 | under any order, `max` is null exactly for an empty array and otherwise an element no element exceeds |
| Arrays.MinIsLeast | test/Peach/Util/ArraysTest.php:81-99 | under any order, `min` is null exactly for an empty array and otherwise an element no element is below |
| Arrays.IntVectors | test/Peach/Util/ArraysTest.php:51-84 | the maximum of 5, 1, 3, 10, -10 is 10 and the minimum -10 |
| Arrays.NameVectors | test/Peach/Util/ArraysTest.php:64-98 | by the number-name comparator, "five" is the maximum and "one" the minimum |
| Arrays.Max | test/Peach/Util/ArraysTest.php:49-67 | `getTop` looking for the greatest element; `Arrays.MaxIsGreatest` states the result |
| Arrays.Min | test/Peach/Util/ArraysTest.php:81-99 | `getTop` looking for the least element; `Arrays.MinIsLeast` states the result |
| Arrays.Sort | test/Peach/Util/ArraysTest.php:178-210 | insertion of each element into the sorted rest; `Arrays.SortSpec` states that the result is an ascending permutation |
| Arrays.Asort | test/Peach/Util/ArraysTest.php:221-256 | `sort` of the key/value pairs by value; `Arrays.AsortSpec` states that each value keeps its key |
| Arrays.Concat | test/Peach/Util/ArraysTest.php:263-283 | each argument spread one level; `Arrays.ConcatAt` and `Arrays.ConcatJoin` state what each argument contributes |
| Arrays.SortSpec | test/Peach/Util/ArraysTest.php:178-210 | `sort` returns a permutation of its argument in ascending order |
| Arrays.SortSmall | test/Peach/Util/ArraysTest.php:180-186 | an empty or one-element array sorts to itself |
| Arrays.SortVector | test/Peach/Util/ArraysTest.php:189-190 | 20, 10 sorts to 10, 20 |
| Arrays.AsortSpec | test/Peach/Util/ArraysTest.php:221-256 | `asort` returns a permutation of the key/value pairs, so every value keeps its key, ascending by value |
| Arrays.ConcatJoin | test/Peach/Util/ArraysTest.php:263-283 | `concat` of two argument lists is the join of their `concat`s |
| Arrays.ConcatScalars | test/Peach/Util/ArraysTest.php:268-269 | scalars alone come back as they are |
| Arrays.ConcatAt | test/Peach/Util/ArraysTest.php:271-282 | each argument contributes, in place, its items if it is an array and itself otherwise |
| Arrays.ConcatVector | test/Peach/Util/ArraysTest.php:271-282 | the two examples: arrays spliced one level, scalars appended, nested arrays kept whole |
| Arrays.IsUniqueOf | test/Peach/Util/ArraysTest.php:285-299 | the contract of `unique`: the result is the argument's entries at some ascending positions, with their keys; no two of its values compare equal; every value of the argument compares equal to one of them. `Arrays.UniqueSpec`, `Arrays.UniqueCount` and `Arrays.UniqueVector` state its properties |
| Arrays.FirstOfEach | test/Peach/Util/ArraysTest.php:285-291 | one result the contract allows, the first entry of each group; `Arrays.UniqueSpec` states that it meets the contract |
| Arrays.UniqueSpec | test/Peach/Util/ArraysTest.php:285-291 | under every order the contract of `unique` can be met: the first entry of each group meets it |
| Arrays.UniqueBound | test/Peach/Util/ArraysTest.php:285-291 | a result of `unique` has no more entries than its argument |
| Arrays.UniqueCount | test/Peach/Util/ArraysTest.php:285-291 | whichever entries survive, any two results meeting the contract have the same length: one entry per group of equal values |
| Arrays.UniqueVector | test/Peach/Util/ArraysTest.php:293-299 | the expected result of the example meets the contract under the default comparator, which compares numeric strings as numbers; it keeps key 7 ("3") and key 8 (2) |
| HttpResponse.Response.constructor | src/Peach/Http/Response.php:52-56 | a new response has no header fields and no body |
| HttpResponse.Response.SetHeader | src/Peach/Http/Response.php:87-91 | the field is stored under its lower-cased name; every spelling of that name now finds it, and every other name finds what it did before |
| HttpResponse.AssignLowerKeys | src/Peach/Http/Response.php:87-91 | storing under a lower-cased name keeps every key lower-case |
| Text.ToLowerIdempotent | src/Peach/Http/Response.php:89 | lower-casing twice is lower-casing once |
| HttpResponse.Response.GetHeader | src/Peach/Http/Response.php:65-69 | returns the field stored under the lower-cased name, or `NoField` when there is none, never null |
| HttpResponse.Response.HasHeader | src/Peach/Http/Response.php:98-101 | true exactly when a field is stored under the lower-cased name |
| HttpResponse.Response.GetHeaderList | src/Peach/Http/Response.php:76-79 | the stored list itself, in order: fields with distinct lower-case names, each name giving the stored field |
| HttpResponse.Response.IsMalformed | src/Peach/Http/Response.php:109-116 | malformed exactly when no `:status` field holding a status is stored |
| HttpResponse.Response.ValidateStatusHeader | src/Peach/Http/Response.php:123-130 | valid exactly when a `:status` field holding a status is stored |
| HttpResponse.StatusDecidesMalformed | src/Peach/Http/Response.php:109-130 | setting a status field makes any response well formed; without a `:status` key it is malformed |
| HttpResponse.Response.SetBody | src/Peach/Http/Response.php:136-139 | the body becomes the given one |
| HttpResponse.Response.GetBody | src/Peach/Http/Response.php:145-148 | returns the body last set, null before any |

## Left out

- Reading the clock is left out: `Datetime::now`, the `parseDate`/`parseDatetime`/`parseTimestamp` methods seeded from `Date::now()`, the Asia/Tokyo time-zone setup of the date tests and the offset clock. They depend on the system clock and a time-zone database.
- `Date::parse` is left out, and with it the parse and illegal-format tests of `Date`. It goes through a default format whose source is not part of this model. `Times.ReadTime` with `Times.TextRoundTrip` states the text form it reads.
- IEEE floating point is left out. A number with a fraction or an exponent is kept as an exact mantissa and power of ten. With BIGINT_AS_STRING off, a large integer stays an unbounded integer rather than falling back to a float.
- The BIGINT_AS_STRING boundary is taken as the signed 32-bit range. Both that and the 2^32 bound named in a comment of the number tests agree with every example.
- `\u` escapes naming UTF-16 surrogate halves are refused as invalid escapes, because a Dafny `char` is a Unicode scalar value.
- The `Number`, `Value`, `WS` and `Context` sources are not part of this model. Their behaviour is taken from RFC 7159 and the rule tests.
- The exact array and object examples of the value tests are not restated as separate vectors. `JsonLemmas.ArrayRoundTrip`, `JsonLemmas.ObjectRoundTrip` and `JsonLemmas.ValueRoundTrip` cover them for every such value.
- The number examples are stated on their text followed by ','. The option examples are stated on the bare text, which the same rule reads to its end.
- The regular-expression matching of the `Numbers` and `Raw` patterns is not modelled. The matcher is a parameter of `SimpleFormat.Interpret`, and `SimpleFormat.InterpretConsumes` assumes only that it matches prefixes.
- `Pattern::apply`, which writes a matched field into the result map, is left out. `SimpleFormat.Interpret` returns the matched texts in order.
- `Date`, `Time` and `FieldAdjuster` sources are not part of this model. The date carry is modelled as one month (or one year of months) per step, coarser fields first. This agrees with every example of the date tests.
- Times.CompareFields: a comparison with a value that is not a time, which returns null, is not modelled because the argument is typed. Neither is the `TimeWrapper` test double. Its comparisons are the `Date` comparisons of `TimeVectors.CompareVectors`.
- SimpleFormat.NewFormat: the `strval` of the pattern is not modelled, because the pattern is typed as a text. The same holds for the `intval` of the field arguments of the `Datetime` constructor (src/Peach/DT/Datetime.php:95-104) in `Calendar.Make` and `CalendarTable.Construct`.
- Times.SetAll: a non-array argument, which raises an exception, is not modelled because the argument is typed.
- TimeVectors.ConvertVectors: `toDate` returning a distinct object is not modelled, because values have no identity.
- HttpResponse.Name: `NoField`'s name is modelled as the empty string, because its source is not part of this model.
- Arrays.IsUniqueOf: which entry of a group of equal values survives is not stated. The library picks it through the order its `asort` gives to equal values, and `Arrays.php` is not part of this model. The contract states that exactly one entry per group survives, with its key and in the argument's order.
- Arrays.MaxIsGreatest: on ties the first greatest element is kept. The examples have no ties under their comparators.
- `Arrays::pickup` is left out. It relies on PHP type introspection and file resources.
- Object keys converted through `__toString` and building an `ArrayMap` from a `HashMap` are left out. They depend on unseen classes.
- The Markup classes (`Html`, `DefaultBuilder`, `Context`, `MinimalBreakControl`) are left out. They are code generation and configuration over unseen classes.
- `HashMapEntry` is left out. It delegates to an unseen `Equator`.
- The interfaces `Expression`, `SingleHeaderField` and `BodyRenderer` are left out. They have no behaviour of their own.
