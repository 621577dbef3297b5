/**
  `format_date_to_jst`: a parsed Date header is taken as UTC when it carries
  no offset, moved to Japan Standard Time (UTC+9) and printed as
  `YYYY-MM-DD HH:MM`. The RFC 5322 section 3.3 date grammar itself is a
  parameter (`Parser`); the calendar arithmetic of Python's `datetime` is
  written out on integers (proleptic Gregorian calendar, years 1 to 9999).
 */
module JstDate {
  import opened Wrappers

  /** What `parsedate_to_datetime` extracts: civil fields and the zone offset in minutes east of UTC (None for "-0000" or no zone). */
  datatype ParsedDate = ParsedDate(year: int, month: int, day: int, hour: int, minute: int, second: int, offset: Option<int>)

  /** The RFC 5322 date parser; None where it raises. */
  type Parser = string -> Option<ParsedDate>

  datatype Date = Date(year: int, month: int, day: int)

  /** A wall-clock time to the minute; offsets are whole minutes, so seconds never change and are not printed. */
  datatype DateTime = DateTime(date: Date, hour: int, minute: int)

  /** Returned for an absent or empty Date header. */
  const UnknownDate: string := "日時不明"

  /** Asia/Tokyo, taken as a fixed UTC+9. */
  const JstOffset: int := 540

  const MinutesPerDay: int := 1440

  /** datetime.MINYEAR and datetime.MAXYEAR */
  const MinYear: int := 1
  const MaxYear: int := 9999

  predicate IsLeap(y: int)
  {
    y % 4 == 0 && (y % 100 != 0 || y % 400 == 0)
  }

  function DaysInYear(y: int): int
  {
    if IsLeap(y) then 366 else 365
  }

  function DaysInMonth(y: int, m: int): int
    requires 1 <= m <= 12
  {
    if m == 2 then (if IsLeap(y) then 29 else 28)
    else if m == 4 || m == 6 || m == 9 || m == 11 then 30
    else 31
  }

  /** Days in the months of year `y` before month `m`. */
  function DaysBeforeMonth(y: int, m: int): int
    requires 1 <= m <= 12
  {
    (if m > 2 && IsLeap(y) then 1 else 0) +
    (if m == 1 then 0 else if m == 2 then 31 else if m == 3 then 59
     else if m == 4 then 90 else if m == 5 then 120 else if m == 6 then 151
     else if m == 7 then 181 else if m == 8 then 212 else if m == 9 then 243
     else if m == 10 then 273 else if m == 11 then 304 else 334)
  }

  /** Days in the years before year `y`, counted from year 1. */
  function DaysBeforeYear(y: int): int
  {
    var x := y - 1;
    365 * x + x / 4 - x / 100 + x / 400
  }

  predicate ValidDate(d: Date)
  {
    1 <= d.month <= 12 && 1 <= d.day <= DaysInMonth(d.year, d.month)
  }

  predicate ValidDateTime(dt: DateTime)
  {
    ValidDate(dt.date) && 0 <= dt.hour < 24 && 0 <= dt.minute < 60
  }

  predicate InYearRange(d: Date)
  {
    MinYear <= d.year <= MaxYear
  }

  /** Position of a day in the calendar, 0001-01-01 being day 1 (`date.toordinal`). */
  function Ordinal(d: Date): int
    requires 1 <= d.month <= 12
  {
    DaysBeforeYear(d.year) + DaysBeforeMonth(d.year, d.month) + d.day
  }

  /** Minutes since 0001-01-01 00:00 minus one day: the instant a wall-clock time names. */
  function Instant(dt: DateTime): int
    requires 1 <= dt.date.month <= 12
  {
    Ordinal(dt.date) * MinutesPerDay + dt.hour * 60 + dt.minute
  }

  function NextDay(d: Date): Date
    requires ValidDate(d)
  {
    if d.day < DaysInMonth(d.year, d.month) then Date(d.year, d.month, d.day + 1)
    else if d.month < 12 then Date(d.year, d.month + 1, 1)
    else Date(d.year + 1, 1, 1)
  }

  function PrevDay(d: Date): Date
    requires ValidDate(d)
  {
    if d.day > 1 then Date(d.year, d.month, d.day - 1)
    else if d.month > 1 then Date(d.year, d.month - 1, DaysInMonth(d.year, d.month - 1))
    else Date(d.year - 1, 12, 31)
  }

  /** Going from `y - 1` to `y` adds one to `y / 4` exactly when 4 divides `y`. */
  lemma Div4Step(y: int)
    ensures y / 4 == (y - 1) / 4 + (if y % 4 == 0 then 1 else 0)
  {
  }

  /** The same for 100; a multiple of 100 is a multiple of 4. */
  lemma Div100Step(y: int)
    ensures y / 100 == (y - 1) / 100 + (if y % 100 == 0 then 1 else 0)
    ensures y % 100 == 0 ==> y % 4 == 0
  {
  }

  /** The same for 400; a multiple of 400 is a multiple of 100. */
  lemma Div400Step(y: int)
    ensures y / 400 == (y - 1) / 400 + (if y % 400 == 0 then 1 else 0)
    ensures y % 400 == 0 ==> y % 100 == 0
  {
  }

  lemma YearStep(y: int)
    ensures DaysBeforeYear(y + 1) == DaysBeforeYear(y) + DaysInYear(y)
  {
    Div4Step(y);
    Div100Step(y);
    Div400Step(y);
  }

  /** The day after a valid date is valid and one ordinal later (month and year rollover, leap years). */
  lemma NextDayOrdinal(d: Date)
    requires ValidDate(d)
    ensures ValidDate(NextDay(d)) && Ordinal(NextDay(d)) == Ordinal(d) + 1
  {
    YearStep(d.year);
  }

  /** The day before a valid date is valid and one ordinal earlier. */
  lemma PrevDayOrdinal(d: Date)
    requires ValidDate(d)
    ensures ValidDate(PrevDay(d)) && Ordinal(PrevDay(d)) == Ordinal(d) - 1
  {
    YearStep(d.year - 1);
  }

  /** Moves a date by `k` days, one day at a time. */
  function AddDays(d: Date, k: int): (r: Date)
    requires ValidDate(d)
    ensures ValidDate(r) && Ordinal(r) == Ordinal(d) + k
    decreases if k < 0 then -k else k
  {
    if k == 0 then d
    else if k > 0 then
      NextDayOrdinal(d);
      AddDays(NextDay(d), k - 1)
    else
      PrevDayOrdinal(d);
      AddDays(PrevDay(d), k + 1)
  }

  /** Wall-clock arithmetic `dt + timedelta(minutes=delta)`. */
  function Shift(dt: DateTime, delta: int): (r: DateTime)
    requires ValidDateTime(dt)
    ensures ValidDateTime(r)
  {
    var total := dt.hour * 60 + dt.minute + delta;
    var days := total / MinutesPerDay;
    var rest := total % MinutesPerDay;
    DateTime(AddDays(dt.date, days), rest / 60, rest % 60)
  }

  /** A shift keeps the time valid and moves its instant by exactly `delta` minutes. */
  lemma ShiftInstant(dt: DateTime, delta: int)
    requires ValidDateTime(dt)
    ensures ValidDateTime(Shift(dt, delta))
    ensures Instant(Shift(dt, delta)) == Instant(dt) + delta
  {
    var total := dt.hour * 60 + dt.minute + delta;
    var days := total / MinutesPerDay;
    var rest := total % MinutesPerDay;
    assert days * MinutesPerDay + rest == total;
    assert (rest / 60) * 60 + rest % 60 == rest;
  }

  /** `datetime(year, month, day, hour, minute, second)`: None where the constructor raises ValueError. */
  function ToDateTime(p: ParsedDate): (r: Option<DateTime>)
    ensures r.Some? <==>
      ValidDateTime(DateTime(Date(p.year, p.month, p.day), p.hour, p.minute))
      && InYearRange(Date(p.year, p.month, p.day)) && 0 <= p.second < 60
    ensures r.Some? ==> ValidDateTime(r.value) && InYearRange(r.value.date)
    ensures r.Some? ==> r.value == DateTime(Date(p.year, p.month, p.day), p.hour, p.minute)
  {
    if MinYear <= p.year <= MaxYear && 1 <= p.month <= 12 && 1 <= p.day <= DaysInMonth(p.year, p.month)
       && 0 <= p.hour < 24 && 0 <= p.minute < 60 && 0 <= p.second < 60
    then Some(DateTime(Date(p.year, p.month, p.day), p.hour, p.minute))
    else None
  }

  /** The UTC offset in minutes: 0 when the header gave none; None when `timezone()` rejects it (24 hours or more). */
  function UtcOffset(p: ParsedDate): (r: Option<int>)
    ensures p.offset.None? ==> r == Some(0)
    ensures p.offset.Some? ==>
      (r.Some? <==> -MinutesPerDay < p.offset.value < MinutesPerDay) && (r.Some? ==> r.value == p.offset.value)
    ensures r.Some? ==> -MinutesPerDay < r.value < MinutesPerDay
  {
    match p.offset
    case None => Some(0)
    case Some(o) => if -MinutesPerDay < o < MinutesPerDay then Some(o) else None
  }

  /**
    `dt.astimezone(jst)` for a time `local` at UTC offset `off`: first back to
    UTC, then forward by nine hours; None when either step leaves the years
    1..9999 (OverflowError).
   */
  function Convert(local: DateTime, off: int): (r: Option<DateTime>)
    requires ValidDateTime(local)
    ensures r.Some? ==> ValidDateTime(r.value) && InYearRange(r.value.date)
    ensures r.Some? ==> InYearRange(Shift(local, -off).date)
  {
    var utc := Shift(local, -off);
    if !InYearRange(utc.date) then None
    else
      var jst := Shift(utc, JstOffset);
      if !InYearRange(jst.date) then None else Some(jst)
  }

  /** `parsedate_to_datetime` followed by the conversion to Japan time; None where either raises. */
  function ToJst(p: ParsedDate): (r: Option<DateTime>)
    ensures r.Some? ==> ToDateTime(p).Some? && UtcOffset(p).Some?
    ensures r.Some? ==> ValidDateTime(r.value) && InYearRange(r.value.date)
  {
    match ToDateTime(p)
    case None => None
    case Some(local) =>
      match UtcOffset(p)
      case None => None
      case Some(off) => Convert(local, off)
  }

  /** Ordinal of 9999-12-31, the last day `datetime` represents. */
  const MaxOrdinal: int := 3652059

  /** The instants whose wall-clock time lies in the years 1..9999. */
  predicate InstantInRange(i: int)
  {
    MinutesPerDay <= i < (MaxOrdinal + 1) * MinutesPerDay
  }

  /** A valid date falls after every day of the earlier years and within its own year. */
  lemma OrdinalWithinYear(d: Date)
    requires ValidDate(d)
    ensures DaysBeforeYear(d.year) < Ordinal(d) <= DaysBeforeYear(d.year) + DaysInYear(d.year)
  {
  }

  /** Later years start later. */
  lemma {:induction false} DaysBeforeYearIncreasing(a: int, b: int)
    requires a < b
    ensures DaysBeforeYear(a) < DaysBeforeYear(b)
    decreases b - a
  {
    YearStep(a);
    if a + 1 < b {
      DaysBeforeYearIncreasing(a + 1, b);
    }
  }

  /** A valid date is in the years 1..9999 exactly when its ordinal is in 1..MaxOrdinal. */
  lemma YearRangeByOrdinal(d: Date)
    requires ValidDate(d)
    ensures InYearRange(d) <==> 1 <= Ordinal(d) <= MaxOrdinal
  {
    OrdinalWithinYear(d);
    YearStep(d.year);
    assert DaysBeforeYear(1) == 0 && DaysBeforeYear(10000) == MaxOrdinal;
    if d.year < 1 {
      if d.year + 1 < 1 { DaysBeforeYearIncreasing(d.year + 1, 1); }
    } else if d.year > 1 {
      DaysBeforeYearIncreasing(1, d.year);
    }
    if d.year < 9999 {
      DaysBeforeYearIncreasing(d.year + 1, 10000);
    } else if d.year > 10000 {
      DaysBeforeYearIncreasing(10000, d.year);
    }
  }

  /** A valid time is in the years 1..9999 exactly when its instant is in range. */
  lemma YearRangeByInstant(dt: DateTime)
    requires ValidDateTime(dt)
    ensures InYearRange(dt.date) <==> InstantInRange(Instant(dt))
  {
    YearRangeByOrdinal(dt.date);
  }

  /** Distinct valid dates have distinct ordinals. */
  lemma OrdinalInjective(a: Date, b: Date)
    requires ValidDate(a) && ValidDate(b) && Ordinal(a) == Ordinal(b)
    ensures a == b
  {
    OrdinalWithinYear(a);
    OrdinalWithinYear(b);
    YearStep(a.year);
    YearStep(b.year);
    if a.year < b.year {
      if a.year + 1 < b.year { DaysBeforeYearIncreasing(a.year + 1, b.year); }
    } else if b.year < a.year {
      if b.year + 1 < a.year { DaysBeforeYearIncreasing(b.year + 1, a.year); }
    }
    assert a.year == b.year;
  }

  /** Distinct valid wall-clock times name distinct instants. */
  lemma InstantInjective(a: DateTime, b: DateTime)
    requires ValidDateTime(a) && ValidDateTime(b) && Instant(a) == Instant(b)
    ensures a == b
  {
    var ma := a.hour * 60 + a.minute;
    var mb := b.hour * 60 + b.minute;
    assert Ordinal(a.date) == Ordinal(b.date) && ma == mb;
    OrdinalInjective(a.date, b.date);
  }

  /**
    The conversion succeeds exactly when the fields form a valid datetime,
    the offset is under 24 hours, and both the UTC time and the Japan time
    lie in the years 1..9999.
   */
  lemma JstSucceeds(p: ParsedDate)
    ensures ToJst(p).Some? <==>
      ToDateTime(p).Some? && UtcOffset(p).Some? &&
      InstantInRange(Instant(ToDateTime(p).value) - UtcOffset(p).value) &&
      InstantInRange(Instant(ToDateTime(p).value) - UtcOffset(p).value + JstOffset)
  {
    if ToDateTime(p).Some? && UtcOffset(p).Some? {
      ConvertSucceeds(ToDateTime(p).value, UtcOffset(p).value);
    }
  }

  /** The conversion of `local` at offset `off` succeeds exactly when both instants it passes through are in range. */
  lemma ConvertSucceeds(local: DateTime, off: int)
    requires ValidDateTime(local)
    ensures Convert(local, off).Some? <==>
      InstantInRange(Instant(local) - off) && InstantInRange(Instant(local) - off + JstOffset)
  {
    var utc := Shift(local, -off);
    ShiftInstant(local, -off);
    YearRangeByInstant(utc);
    var jst := Shift(utc, JstOffset);
    ShiftInstant(utc, JstOffset);
    YearRangeByInstant(jst);
  }

  /**
    A successful conversion yields the valid wall-clock time, in the years
    1..9999, that names the parsed instant at UTC+9; being injective, the
    instant determines it uniquely.
   */
  lemma JstInstant(p: ParsedDate)
    requires ToJst(p).Some?
    ensures ToDateTime(p).Some? && UtcOffset(p).Some?
    ensures var jst := ToJst(p).value;
      ValidDateTime(jst) && InYearRange(jst.date) &&
      Instant(jst) == Instant(ToDateTime(p).value) - UtcOffset(p).value + JstOffset
    ensures forall dt | ValidDateTime(dt) && Instant(dt) == Instant(ToDateTime(p).value) - UtcOffset(p).value + JstOffset ::
      dt == ToJst(p).value
  {
    ConvertInstant(ToDateTime(p).value, UtcOffset(p).value);
  }

  /** What a successful conversion of `local` at offset `off` yields, and that nothing else fits. */
  lemma ConvertInstant(local: DateTime, off: int)
    requires ValidDateTime(local) && Convert(local, off).Some?
    ensures var jst := Convert(local, off).value;
      ValidDateTime(jst) && InYearRange(jst.date) && Instant(jst) == Instant(local) - off + JstOffset
    ensures forall dt | ValidDateTime(dt) && Instant(dt) == Instant(local) - off + JstOffset ::
      dt == Convert(local, off).value
  {
    var utc := Shift(local, -off);
    ShiftInstant(local, -off);
    ShiftInstant(utc, JstOffset);
    var jst := Shift(utc, JstOffset);
    assert Convert(local, off) == Some(jst);
    forall dt | ValidDateTime(dt) && Instant(dt) == Instant(local) - off + JstOffset
      ensures dt == Convert(local, off).value
    {
      InstantInjective(dt, jst);
    }
  }

  /** A header without an offset is read as UTC: it prints as the same header written with +0000. */
  lemma NoOffsetMeansUtc(p: ParsedDate)
    requires p.offset.None?
    ensures ToJst(p) == ToJst(p.(offset := Some(0)))
  {
  }

  predicate IsDigit(c: char)
  {
    '0' <= c <= '9'
  }

  predicate AllDigits(s: string)
  {
    forall i | 0 <= i < |s| :: IsDigit(s[i])
  }

  /** The last `width` decimal digits of `n`, zero-padded (`%04d`, `%02d`). */
  function Digits(n: nat, width: nat): (s: string)
    ensures |s| == width && AllDigits(s)
  {
    if width == 0 then "" else Digits(n / 10, width - 1) + [('0' as int + n % 10) as char]
  }

  /** The number a string of decimal digits spells. */
  function DigitsValue(s: string): int
    requires AllDigits(s)
  {
    if s == [] then 0 else DigitsValue(s[..|s| - 1]) * 10 + (s[|s| - 1] as int - '0' as int)
  }

  function Pow10(k: nat): nat
  {
    if k == 0 then 1 else 10 * Pow10(k - 1)
  }

  /** Zero-padding loses nothing for numbers that fit: reading the digits back gives `n`. */
  lemma {:induction false} DigitsRoundTrip(n: nat, width: nat)
    requires n < Pow10(width)
    ensures DigitsValue(Digits(n, width)) == n
  {
    if width > 0 {
      DigitsRoundTrip(n / 10, width - 1);
      var s := Digits(n, width);
      assert s[..width - 1] == Digits(n / 10, width - 1);
    }
  }

  /** `strftime("%Y-%m-%d %H:%M")` */
  function Strftime(dt: DateTime): (s: string)
    requires ValidDateTime(dt) && InYearRange(dt.date)
    ensures |s| == 16
  {
    Digits(dt.date.year, 4) + "-" + Digits(dt.date.month, 2) + "-" + Digits(dt.date.day, 2)
      + " " + Digits(dt.hour, 2) + ":" + Digits(dt.minute, 2)
  }

  /** The middle piece of a three-piece concatenation sits right after the first. */
  lemma ConcatMiddle(a: string, b: string, c: string)
    ensures (a + b + c)[|a|..|a| + |b|] == b
  {
    assert (a + b + c)[|a|..|a| + |b|] == (a + b)[|a|..];
  }

  /** Five fields of widths 4, 2, 2, 2 and 2 joined by '-', '-', ' ' and ':' sit at fixed positions. */
  lemma FieldLayout(y: string, mo: string, d: string, h: string, mi: string)
    requires |y| == 4 && |mo| == 2 && |d| == 2 && |h| == 2 && |mi| == 2
    ensures var s := y + "-" + mo + "-" + d + " " + h + ":" + mi;
      |s| == 16 && s[4] == '-' && s[7] == '-' && s[10] == ' ' && s[13] == ':'
      && s[0..4] == y && s[5..7] == mo && s[8..10] == d && s[11..13] == h && s[14..16] == mi
  {
    var s := y + "-" + mo + "-" + d + " " + h + ":" + mi;
    ConcatMiddle([], y, "-" + mo + "-" + d + " " + h + ":" + mi);
    assert s == [] + y + ("-" + mo + "-" + d + " " + h + ":" + mi);
    ConcatMiddle(y + "-", mo, "-" + d + " " + h + ":" + mi);
    assert s == (y + "-") + mo + ("-" + d + " " + h + ":" + mi);
    ConcatMiddle(y + "-" + mo + "-", d, " " + h + ":" + mi);
    assert s == (y + "-" + mo + "-") + d + (" " + h + ":" + mi);
    ConcatMiddle(y + "-" + mo + "-" + d + " ", h, ":" + mi);
    assert s == (y + "-" + mo + "-" + d + " ") + h + (":" + mi);
    ConcatMiddle(y + "-" + mo + "-" + d + " " + h + ":", mi, []);
    assert s == (y + "-" + mo + "-" + d + " " + h + ":") + mi + [];
  }

  /** The printed form has the fixed `YYYY-MM-DD HH:MM` layout, every field zero-padded to its width. */
  lemma StrftimeLayout(dt: DateTime)
    requires ValidDateTime(dt) && InYearRange(dt.date)
    ensures var s := Strftime(dt);
      |s| == 16 && s[4] == '-' && s[7] == '-' && s[10] == ' ' && s[13] == ':'
      && s[0..4] == Digits(dt.date.year, 4) && s[5..7] == Digits(dt.date.month, 2)
      && s[8..10] == Digits(dt.date.day, 2) && s[11..13] == Digits(dt.hour, 2)
      && s[14..16] == Digits(dt.minute, 2)
  {
    FieldLayout(Digits(dt.date.year, 4), Digits(dt.date.month, 2), Digits(dt.date.day, 2),
      Digits(dt.hour, 2), Digits(dt.minute, 2));
  }

  /** Each field of the printed form reads back as the number it came from. */
  lemma StrftimeReadsBack(dt: DateTime)
    requires ValidDateTime(dt) && InYearRange(dt.date)
    ensures var s := Strftime(dt);
      |s| == 16 && AllDigits(s[0..4]) && AllDigits(s[5..7]) && AllDigits(s[8..10])
      && AllDigits(s[11..13]) && AllDigits(s[14..16])
      && DigitsValue(s[0..4]) == dt.date.year && DigitsValue(s[5..7]) == dt.date.month
      && DigitsValue(s[8..10]) == dt.date.day && DigitsValue(s[11..13]) == dt.hour
      && DigitsValue(s[14..16]) == dt.minute
  {
    StrftimeLayout(dt);
    assert Pow10(2) == 100 && Pow10(4) == 10000 by {
      assert Pow10(1) == 10;
      assert Pow10(3) == 1000;
    }
    DigitsRoundTrip(dt.date.year, 4);
    DigitsRoundTrip(dt.date.month, 2);
    DigitsRoundTrip(dt.date.day, 2);
    DigitsRoundTrip(dt.hour, 2);
    DigitsRoundTrip(dt.minute, 2);
  }

  /** `format_date_to_jst(date_string)`; `date` is None when the message has no Date header. */
  function FormatDateToJst(date: Option<string>, parse: Parser): (r: string)
    ensures date.None? || date.value == "" ==> r == UnknownDate
    ensures date.Some? && date.value != "" && (parse(date.value).None? || ToJst(parse(date.value).value).None?) ==>
      r == date.value
  {
    if date.None? || date.value == "" then UnknownDate
    else
      match parse(date.value)
      case None => date.value
      case Some(p) =>
        match ToJst(p)
        case None => date.value
        case Some(jst) => Strftime(jst)
  }

  /** The formatted value for a header whose conversion succeeded. */
  lemma FormatConverted(header: string, parse: Parser, jst: DateTime)
    requires header != "" && parse(header).Some? && ToJst(parse(header).value) == Some(jst)
    ensures ValidDateTime(jst) && InYearRange(jst.date)
    ensures FormatDateToJst(Some(header), parse) == Strftime(jst)
  {
    JstInstant(parse(header).value);
  }

  /** 2025-10-07 00:35 UTC is 2025-10-07 09:35 in Japan. */
  lemma OctoberConversion()
    ensures ToJst(ParsedDate(2025, 10, 7, 0, 35, 0, Some(0))) == Some(DateTime(Date(2025, 10, 7), 9, 35))
  {
    var local := DateTime(Date(2025, 10, 7), 0, 35);
    assert Shift(local, 0) == local;
    assert Shift(local, JstOffset) == DateTime(Date(2025, 10, 7), 9, 35);
  }

  /** Tue, 07 Oct 2025 00:35:00 +0000 is shown as 2025-10-07 09:35. */
  lemma OctoberExample(header: string, parse: Parser)
    requires header != "" && parse(header) == Some(ParsedDate(2025, 10, 7, 0, 35, 0, Some(0)))
    ensures FormatDateToJst(Some(header), parse) == "2025-10-07 09:35"
  {
    var jst := DateTime(Date(2025, 10, 7), 9, 35);
    OctoberConversion();
    FormatConverted(header, parse, jst);
    OctoberPrinted();
  }

  /** 2024-12-31 20:00 at UTC-5 is 2025-01-01 01:00 UTC, which is 2025-01-01 10:00 in Japan. */
  lemma NewYearConversion()
    ensures ToJst(ParsedDate(2024, 12, 31, 20, 0, 0, Some(-300))) == Some(DateTime(Date(2025, 1, 1), 10, 0))
  {
    var local := DateTime(Date(2024, 12, 31), 20, 0);
    assert Shift(local, 300) == DateTime(Date(2025, 1, 1), 1, 0);
    assert Shift(DateTime(Date(2025, 1, 1), 1, 0), JstOffset) == DateTime(Date(2025, 1, 1), 10, 0);
  }

  /** Tue, 31 Dec 2024 20:00:00 -0500 is shown as 2025-01-01 10:00: the year rolls over. */
  lemma NewYearExample(header: string, parse: Parser)
    requires header != "" && parse(header) == Some(ParsedDate(2024, 12, 31, 20, 0, 0, Some(-300)))
    ensures FormatDateToJst(Some(header), parse) == "2025-01-01 10:00"
  {
    var jst := DateTime(Date(2025, 1, 1), 10, 0);
    NewYearConversion();
    FormatConverted(header, parse, jst);
    NewYearPrinted();
  }

  lemma Year2025()
    ensures Digits(2025, 4) == "2025"
  {
    assert Digits(2, 1) == "2";
    assert Digits(20, 2) == "20";
    assert Digits(202, 3) == "202";
  }

  /** A number below 100 printed with two digits. */
  lemma TwoDigits(n: nat)
    requires n < 100
    ensures Digits(n, 2) == [('0' as int + n / 10) as char, ('0' as int + n % 10) as char]
  {
    assert Digits(n / 10, 1) == [('0' as int + n / 10) as char];
  }

  /** The printed form of a 2025 date. */
  lemma Printed2025(dt: DateTime)
    requires dt.date.year == 2025 && ValidDateTime(dt)
    ensures Strftime(dt) == "2025-" + Digits(dt.date.month, 2) + "-" + Digits(dt.date.day, 2)
      + " " + Digits(dt.hour, 2) + ":" + Digits(dt.minute, 2)
  {
    Year2025();
  }

  lemma OctoberPrinted()
    ensures Strftime(DateTime(Date(2025, 10, 7), 9, 35)) == "2025-10-07 09:35"
  {
    Printed2025(DateTime(Date(2025, 10, 7), 9, 35));
    TwoDigits(10);
    TwoDigits(7);
    TwoDigits(9);
    TwoDigits(35);
    assert Digits(10, 2) == "10" && Digits(7, 2) == "07" && Digits(9, 2) == "09" && Digits(35, 2) == "35";
    assert "2025-" + "10" + "-" + "07" + " " + "09" + ":" + "35" == "2025-10-07 09:35";
  }

  lemma NewYearPrinted()
    ensures Strftime(DateTime(Date(2025, 1, 1), 10, 0)) == "2025-01-01 10:00"
  {
    Printed2025(DateTime(Date(2025, 1, 1), 10, 0));
    TwoDigits(1);
    TwoDigits(10);
    TwoDigits(0);
    assert Digits(1, 2) == "01" && Digits(10, 2) == "10" && Digits(0, 2) == "00";
    assert "2025-" + "01" + "-" + "01" + " " + "10" + ":" + "00" == "2025-01-01 10:00";
  }
}
