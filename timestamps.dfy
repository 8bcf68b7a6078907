/** `get_datetime`: the timestamp at the head of a ping-log line, in the
    layout `DD.MM.YYYY HH:MM:SS`, read as a count of seconds on the proleptic
    Gregorian calendar, so that subtracting two timestamps is subtracting two
    integers. */
module Timestamps {
  import opened Errors
  import opened Text

  /** Number of leading characters `get_datetime` reads. */
  const WIDTH: nat := 19

  datatype DateTime = DateTime(year: int, month: int, day: int, hour: int, minute: int, second: int)

  predicate IsLeapYear(y: int)
  {
    y % 4 == 0 && (y % 100 != 0 || y % 400 == 0)
  }

  function DaysInYear(y: int): int
  {
    if IsLeapYear(y) then 366 else 365
  }

  function DaysInMonth(y: int, m: int): int
    requires 1 <= m <= 12
  {
    if m == 2 then (if IsLeapYear(y) then 29 else 28)
    else if m == 4 || m == 6 || m == 9 || m == 11 then 30
    else 31
  }

  /** What Python's `datetime` accepts: years 1 to 9999, real calendar days,
      and seconds 0 to 59 (no leap seconds). */
  predicate Valid(dt: DateTime)
  {
    && 1 <= dt.year <= 9999
    && 1 <= dt.month <= 12
    && 1 <= dt.day <= DaysInMonth(dt.year, dt.month)
    && 0 <= dt.hour < 24
    && 0 <= dt.minute < 60
    && 0 <= dt.second < 60
  }

  /** Days in the years before year `y`. */
  function DaysBeforeYear(y: int): int
    requires y >= 1
  {
    var p := y - 1;
    p * 365 + p / 4 - p / 100 + p / 400
  }

  /** Days in the months of year `y` before month `m`. */
  function DaysBeforeMonth(y: int, m: int): int
    requires 1 <= m <= 12
  {
    [0, 31, 59, 90, 120, 151, 181, 212, 243, 273, 304, 334][m - 1]
      + (if m > 2 && IsLeapYear(y) then 1 else 0)
  }

  /** The proleptic Gregorian ordinal of a date: 1 January of year 1 is day 1. */
  function Ordinal(y: int, m: int, d: int): int
    requires y >= 1 && 1 <= m <= 12
  {
    DaysBeforeYear(y) + DaysBeforeMonth(y, m) + d
  }

  /** Seconds since the ordinal epoch. */
  function Seconds(dt: DateTime): int
    requires Valid(dt)
  {
    Ordinal(dt.year, dt.month, dt.day) * 86400 + dt.hour * 3600 + dt.minute * 60 + dt.second
  }

  /** The calendar day after the date part of `dt`, at midnight. */
  function NextDay(dt: DateTime): DateTime
    requires Valid(dt)
  {
    if dt.day < DaysInMonth(dt.year, dt.month) then DateTime(dt.year, dt.month, dt.day + 1, 0, 0, 0)
    else if dt.month < 12 then DateTime(dt.year, dt.month + 1, 1, 0, 0, 0)
    else DateTime(dt.year + 1, 1, 1, 0, 0, 0)
  }

  /** The date-time one second after `dt`, carrying into minutes, hours, days,
      months and years as a clock and a calendar do. */
  function Tick(dt: DateTime): DateTime
    requires Valid(dt)
  {
    if dt.second < 59 then dt.(second := dt.second + 1)
    else if dt.minute < 59 then dt.(minute := dt.minute + 1, second := 0)
    else if dt.hour < 23 then dt.(hour := dt.hour + 1, minute := 0, second := 0)
    else NextDay(dt)
  }

  /** `dt` comes strictly before `other` in calendar order. */
  predicate Before(dt: DateTime, other: DateTime)
  {
    || dt.year < other.year
    || (dt.year == other.year && dt.month < other.month)
    || (dt.year == other.year && dt.month == other.month && dt.day < other.day)
    || (dt.year == other.year && dt.month == other.month && dt.day == other.day && dt.hour < other.hour)
    || (dt.year == other.year && dt.month == other.month && dt.day == other.day && dt.hour == other.hour
        && dt.minute < other.minute)
    || (dt.year == other.year && dt.month == other.month && dt.day == other.day && dt.hour == other.hour
        && dt.minute == other.minute && dt.second < other.second)
  }

  // ----- the parser -----

  /** Fields that fit the fixed-width layout. */
  predicate FitsLayout(dt: DateTime)
  {
    && 0 <= dt.day < 100 && 0 <= dt.month < 100 && 0 <= dt.year < 10000
    && 0 <= dt.hour < 100 && 0 <= dt.minute < 100 && 0 <= dt.second < 100
  }

  /** Six fields joined with the separators of `DD.MM.YYYY HH:MM:SS`. */
  function Layout(d: string, mo: string, y: string, h: string, mi: string, s: string): string
  {
    d + "." + mo + "." + y + " " + h + ":" + mi + ":" + s
  }

  /** `dt` written as `DD.MM.YYYY HH:MM:SS`. */
  function Format(dt: DateTime): (text: string)
    requires FitsLayout(dt)
    ensures |text| == WIDTH
  {
    Layout(Fixed(dt.day, 2), Fixed(dt.month, 2), Fixed(dt.year, 4),
           Fixed(dt.hour, 2), Fixed(dt.minute, 2), Fixed(dt.second, 2))
  }

  /** The number spelled by `text[lo..hi]`, if it is all digits. */
  function Field(text: string, lo: nat, hi: nat): Option<nat>
    requires lo <= hi <= |text|
  {
    if AllDigits(text[lo..hi]) then Some(DigitsValue(text[lo..hi])) else None
  }

  /** Reads the fields of a `DD.MM.YYYY HH:MM:SS` text, without range checks. */
  function ParseLayout(text: string): (r: Option<DateTime>)
    ensures r.Some? ==> FitsLayout(r.value)
  {
    if |text| != WIDTH || text[2] != '.' || text[5] != '.' || text[10] != ' '
       || text[13] != ':' || text[16] != ':'
    then None
    else
      var d, mo, y := Field(text, 0, 2), Field(text, 3, 5), Field(text, 6, 10);
      var h, mi, s := Field(text, 11, 13), Field(text, 14, 16), Field(text, 17, 19);
      if d.None? || mo.None? || y.None? || h.None? || mi.None? || s.None? then None
      else Some(DateTime(y.value, mo.value, d.value, h.value, mi.value, s.value))
  }

  /** `datetime.strptime(line[0:19], "%d.%m.%Y %H:%M:%S")`, as seconds. */
  function GetDatetime(line: string): (r: Result<int>)
    ensures r.Err? ==> r.error == ValueError
    ensures |line| < WIDTH ==> r.Err?
  {
    var text := if |line| <= WIDTH then line else line[..WIDTH];
    match ParseLayout(text)
    case None => Err(ValueError)
    case Some(dt) => if Valid(dt) then Ok(Seconds(dt)) else Err(ValueError)
  }

  // ----- calendar arithmetic -----

  /** How the leap-day counts `p / 4`, `p / 100` and `p / 400` change from
      year `y - 1` to year `y`. */
  lemma LeapCountsStep(y: int)
    ensures y / 4 - (y - 1) / 4 == (if y % 4 == 0 then 1 else 0)
    ensures y / 100 - (y - 1) / 100 == (if y % 100 == 0 then 1 else 0)
    ensures y / 400 - (y - 1) / 400 == (if y % 400 == 0 then 1 else 0)
  {
  }

  /** A year divisible by 400 is divisible by 100, and one divisible by 100 by 4. */
  lemma CenturyDivides(y: int)
    ensures y % 400 == 0 ==> y % 100 == 0
    ensures y % 100 == 0 ==> y % 4 == 0
  {
    var q := y / 100;
    assert y == 100 * q + y % 100;
    assert y == 4 * (25 * q) + y % 100;
    if y % 400 == 0 {
      var p := y / 400;
      assert y == 100 * (4 * p);
    }
  }

  lemma DaysBeforeYearStep(y: int)
    requires y >= 1
    ensures DaysBeforeYear(y + 1) == DaysBeforeYear(y) + DaysInYear(y)
  {
    LeapCountsStep(y);
    CenturyDivides(y);
    var leap := (if y % 4 == 0 then 1 else 0) - (if y % 100 == 0 then 1 else 0) + (if y % 400 == 0 then 1 else 0);
    assert DaysBeforeYear(y + 1) - DaysBeforeYear(y) == 365 + leap;
    assert DaysInYear(y) == 365 + leap;
  }

  lemma DaysBeforeMonthStep(y: int, m: int)
    requires 1 <= m < 12
    ensures DaysBeforeMonth(y, m + 1) == DaysBeforeMonth(y, m) + DaysInMonth(y, m)
  {
  }

  /** The ordinal counts days: the next calendar day has the next ordinal. */
  lemma OrdinalNextDay(dt: DateTime)
    requires Valid(dt)
    ensures NextDay(dt).year >= 1 && 1 <= NextDay(dt).month <= 12
    ensures Ordinal(NextDay(dt).year, NextDay(dt).month, NextDay(dt).day)
            == Ordinal(dt.year, dt.month, dt.day) + 1
  {
    if dt.day == DaysInMonth(dt.year, dt.month) {
      if dt.month < 12 {
        DaysBeforeMonthStep(dt.year, dt.month);
      } else {
        DaysBeforeYearStep(dt.year);
      }
    }
  }

  /** Seconds count clock ticks: one second later on the calendar is one more. */
  lemma SecondsTick(dt: DateTime)
    requires Valid(dt) && Valid(Tick(dt))
    ensures Seconds(Tick(dt)) == Seconds(dt) + 1
  {
    if dt.second == 59 && dt.minute == 59 && dt.hour == 23 {
      OrdinalNextDay(dt);
    }
  }

  lemma {:induction false} DaysBeforeYearMonotone(y: int, y': int)
    requires 1 <= y < y'
    ensures DaysBeforeYear(y) + DaysInYear(y) <= DaysBeforeYear(y')
    decreases y' - y
  {
    DaysBeforeYearStep(y);
    if y + 1 < y' {
      DaysBeforeYearMonotone(y + 1, y');
    }
  }

  lemma {:induction false} DaysBeforeMonthMonotone(y: int, m: int, m': int)
    requires 1 <= m < m' <= 12
    ensures DaysBeforeMonth(y, m) + DaysInMonth(y, m) <= DaysBeforeMonth(y, m')
    decreases m' - m
  {
    DaysBeforeMonthStep(y, m);
    if m + 1 < m' {
      DaysBeforeMonthMonotone(y, m + 1, m');
    }
  }

  /** A date's ordinal stays inside its year. */
  lemma OrdinalWithinYear(dt: DateTime)
    requires Valid(dt)
    ensures Ordinal(dt.year, dt.month, dt.day) <= DaysBeforeYear(dt.year) + DaysInYear(dt.year)
  {
    if dt.month < 12 {
      DaysBeforeMonthMonotone(dt.year, dt.month, 12);
    }
  }

  lemma OrdinalMonotone(a: DateTime, b: DateTime)
    requires Valid(a) && Valid(b)
    requires Before(a, b) && (a.year, a.month, a.day) != (b.year, b.month, b.day)
    ensures Ordinal(a.year, a.month, a.day) < Ordinal(b.year, b.month, b.day)
  {
    if a.year < b.year {
      OrdinalWithinYear(a);
      DaysBeforeYearMonotone(a.year, b.year);
    } else if a.month < b.month {
      DaysBeforeMonthMonotone(a.year, a.month, b.month);
    }
  }

  /** Seconds order date-times exactly as the calendar does, so that a
      difference of two timestamps has the sign of their calendar order. */
  lemma SecondsOrder(a: DateTime, b: DateTime)
    requires Valid(a) && Valid(b)
    ensures Seconds(a) < Seconds(b) <==> Before(a, b)
    ensures Seconds(a) == Seconds(b) <==> a == b
  {
    if (a.year, a.month, a.day) != (b.year, b.month, b.day) {
      if Before(a, b) {
        OrdinalMonotone(a, b);
      } else {
        OrdinalMonotone(b, a);
      }
    }
  }

  // ----- the parser against the formatter -----

  /** Where the separators and the fields sit in a joined layout. */
  lemma LayoutParts(d: string, mo: string, y: string, h: string, mi: string, s: string)
    requires |d| == 2 && |mo| == 2 && |y| == 4 && |h| == 2 && |mi| == 2 && |s| == 2
    ensures var text := Layout(d, mo, y, h, mi, s);
      && |text| == WIDTH
      && text[2] == '.' && text[5] == '.' && text[10] == ' ' && text[13] == ':' && text[16] == ':'
      && text[0..2] == d && text[3..5] == mo && text[6..10] == y
      && text[11..13] == h && text[14..16] == mi && text[17..19] == s
  {
  }

  /** A 19-character text with the separators in place is the layout of its fields. */
  lemma LayoutOfParts(text: string)
    requires |text| == WIDTH
    requires text[2] == '.' && text[5] == '.' && text[10] == ' ' && text[13] == ':' && text[16] == ':'
    ensures text == Layout(text[0..2], text[3..5], text[6..10], text[11..13], text[14..16], text[17..19])
  {
  }

  /** The layout reader reads back every field that formatting wrote. */
  lemma ParseOfFormat(dt: DateTime)
    requires FitsLayout(dt)
    ensures ParseLayout(Format(dt)) == Some(dt)
  {
    LayoutParts(Fixed(dt.day, 2), Fixed(dt.month, 2), Fixed(dt.year, 4),
                Fixed(dt.hour, 2), Fixed(dt.minute, 2), Fixed(dt.second, 2));
  }

  /** Formatting a valid date-time and reading the line back gives its seconds,
      whatever follows the first 19 characters. */
  lemma GetDatetimeRoundTrip(dt: DateTime, rest: string)
    requires Valid(dt)
    ensures GetDatetime(Format(dt) + rest) == Ok(Seconds(dt))
  {
    var text := Format(dt);
    var line := text + rest;
    assert (if |line| <= WIDTH then line else line[..WIDTH]) == text;
    ParseOfFormat(dt);
  }

  /** Every text the parser accepts is the formatting of what it read. */
  lemma FormatOfParsed(text: string)
    requires ParseLayout(text).Some?
    ensures Format(ParseLayout(text).value) == text
  {
    var dt := ParseLayout(text).value;
    FixedOfValue(text[0..2]);
    FixedOfValue(text[3..5]);
    FixedOfValue(text[6..10]);
    FixedOfValue(text[11..13]);
    FixedOfValue(text[14..16]);
    FixedOfValue(text[17..19]);
    LayoutOfParts(text);
  }

  /** `line` starts with the layout of the valid date-time `dt`. */
  ghost predicate StampedWith(line: string, dt: DateTime)
  {
    Valid(dt) && |line| >= WIDTH && Format(dt) == line[..WIDTH]
  }

  /** A line stamped with `dt` reads as the seconds of `dt`. */
  lemma GetDatetimeOfStamped(line: string, dt: DateTime)
    requires StampedWith(line, dt)
    ensures GetDatetime(line) == Ok(Seconds(dt))
  {
    GetDatetimeRoundTrip(dt, line[WIDTH..]);
    assert line == Format(dt) + line[WIDTH..];
  }

  /** A line that reads is stamped with the date-time it was read as. */
  lemma StampOfParsed(line: string) returns (dt: DateTime)
    requires GetDatetime(line).Ok?
    ensures StampedWith(line, dt)
  {
    var text := if |line| <= WIDTH then line else line[..WIDTH];
    FormatOfParsed(text);
    dt := ParseLayout(text).value;
  }

  /** `get_datetime` succeeds exactly on lines whose first 19 characters spell
      a valid date-time, and then returns that date-time's seconds. */
  lemma GetDatetimeSpec(line: string)
    ensures GetDatetime(line).Ok? <==> exists dt :: StampedWith(line, dt)
    ensures forall dt :: StampedWith(line, dt) ==> GetDatetime(line) == Ok(Seconds(dt))
  {
    forall dt | StampedWith(line, dt)
      ensures GetDatetime(line) == Ok(Seconds(dt))
    {
      GetDatetimeOfStamped(line, dt);
    }
    if GetDatetime(line).Ok? {
      var dt := StampOfParsed(line);
    }
  }

  /** Only the first 19 characters of a line matter. */
  lemma GetDatetimeReadsPrefix(line: string, other: string)
    requires |line| >= WIDTH && |other| >= WIDTH && line[..WIDTH] == other[..WIDTH]
    ensures GetDatetime(line) == GetDatetime(other)
  {
    var text := if |line| <= WIDTH then line else line[..WIDTH];
    var otherText := if |other| <= WIDTH then other else other[..WIDTH];
    assert text == otherText;
  }
}
