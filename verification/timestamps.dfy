/**
 * Naive (time-zone free) date-times as the visit tracker handles them: Python's `str(datetime)`
 * rendering, `strptime` with the format `%Y-%m-%d %H:%M:%S`, the `[:-7]` slice that drops the
 * microseconds, and the whole days of a difference of two date-times (`timedelta.days`).
 */
module Timestamps {
  import opened Results
  import opened Numerals

  datatype DateTime = DateTime(year: int, month: int, day: int,
                               hour: int, minute: int, second: int, microsecond: int)

  const MicrosPerSecond := 1_000_000
  const MicrosPerDay := 86_400_000_000

  /** Leap years of the proleptic Gregorian calendar. */
  predicate IsLeap(year: int) {
    year % 4 == 0 && (year % 100 != 0 || year % 400 == 0)
  }

  function DaysInMonth(year: int, month: int): (n: int)
    requires 1 <= month <= 12
    ensures 28 <= n <= 31
    ensures month == 2 ==> (n == 29 <==> IsLeap(year))
  {
    if month == 2 then (if IsLeap(year) then 29 else 28)
    else if month == 4 || month == 6 || month == 9 || month == 11 then 30
    else 31
  }

  /** The date-times Python's `datetime` can hold: years 1 to 9999, real calendar days. */
  predicate Valid(dt: DateTime) {
    && 1 <= dt.year <= 9999
    && 1 <= dt.month <= 12
    && 1 <= dt.day <= DaysInMonth(dt.year, dt.month)
    && 0 <= dt.hour < 24
    && 0 <= dt.minute < 60
    && 0 <= dt.second < 60
    && 0 <= dt.microsecond < MicrosPerSecond
  }

  /** The same date-time with its microseconds dropped. */
  function WholeSecond(dt: DateTime): DateTime {
    dt.(microsecond := 0)
  }

  /** Days in a year: 366 in a leap year, 365 otherwise. */
  function YearDays(year: int): int {
    if IsLeap(year) then 366 else 365
  }

  /** Days in the years before `year`, counted year by year. */
  function DaysBeforeYear(year: int): (n: int)
    requires year >= 1
    ensures n >= 365 * (year - 1)
  {
    if year == 1 then 0 else DaysBeforeYear(year - 1) + YearDays(year - 1)
  }

  /** Days in the months of `year` before `month`. */
  function DaysBeforeMonth(year: int, month: int): (n: int)
    requires 1 <= month <= 12
    ensures 28 * (month - 1) <= n <= 31 * (month - 1)
  {
    if month == 1 then 0 else DaysBeforeMonth(year, month - 1) + DaysInMonth(year, month - 1)
  }

  /** Day number of a date, 1 for 0001-01-01 (Python's `toordinal`). */
  function Ordinal(dt: DateTime): (n: int)
    requires Valid(dt)
    ensures n >= 1
  {
    DaysBeforeYear(dt.year) + DaysBeforeMonth(dt.year, dt.month) + dt.day
  }

  /** Microseconds since the start of day 0 of the ordinal count. */
  function Micros(dt: DateTime): int
    requires Valid(dt)
  {
    (((Ordinal(dt) * 24 + dt.hour) * 60 + dt.minute) * 60 + dt.second) * MicrosPerSecond + dt.microsecond
  }

  /** A date-time's microsecond count falls within its calendar day. */
  lemma MicrosInDay(dt: DateTime)
    requires Valid(dt)
    ensures Ordinal(dt) * MicrosPerDay <= Micros(dt) < (Ordinal(dt) + 1) * MicrosPerDay
  {
  }

  /** `(later - earlier).days`: the difference rounded down to whole days, negative when `later` is earlier. */
  function ElapsedDays(later: DateTime, earlier: DateTime): int
    requires Valid(later) && Valid(earlier)
  {
    (Micros(later) - Micros(earlier)) / MicrosPerDay
  }

  /** `timedelta.days` is the floor of the difference in days; it is positive exactly when a whole day has passed. */
  lemma ElapsedDaysFloor(later: DateTime, earlier: DateTime)
    requires Valid(later) && Valid(earlier)
    ensures var days := ElapsedDays(later, earlier);
      && days * MicrosPerDay <= Micros(later) - Micros(earlier) < (days + 1) * MicrosPerDay
      && (days > 0 <==> Micros(later) - Micros(earlier) >= MicrosPerDay)
  {
  }

  /** `str(dt)`: `YYYY-MM-DD HH:MM:SS`, followed by `.ffffff` only when the microseconds are not 0. */
  function Format(dt: DateTime): (s: string)
    requires Valid(dt)
    ensures |s| == if dt.microsecond == 0 then 19 else 26
  {
    assert Pow10(2) == 100 && Pow10(4) == 10000 && Pow10(6) == 1000000;
    Padded(dt.year, 4) + "-" + Padded(dt.month, 2) + "-" + Padded(dt.day, 2) + " "
      + Padded(dt.hour, 2) + ":" + Padded(dt.minute, 2) + ":" + Padded(dt.second, 2)
      + (if dt.microsecond == 0 then "" else "." + Padded(dt.microsecond, 6))
  }

  /** `s[:-7]`: the string without its last seven characters, empty when it is shorter. */
  function DropSuffix(s: string): (r: string)
    ensures |r| == if |s| >= 7 then |s| - 7 else 0
    ensures r <= s
  {
    if |s| >= 7 then s[..|s| - 7] else ""
  }

  /** The shape `strptime(s, '%Y-%m-%d %H:%M:%S')` matches: six zero-padded digit fields and their separators. */
  predicate Shaped(s: string) {
    && |s| == 19
    && s[4] == '-' && s[7] == '-' && s[10] == ' ' && s[13] == ':' && s[16] == ':'
    && AllDigits(s[0..4]) && AllDigits(s[5..7]) && AllDigits(s[8..10])
    && AllDigits(s[11..13]) && AllDigits(s[14..16]) && AllDigits(s[17..19])
  }

  /**
   * `datetime.strptime(s, '%Y-%m-%d %H:%M:%S')`: the date-time the text names, with no microseconds,
   * or None where `strptime` raises ValueError (the text does not match, or names no real date-time).
   */
  function Parse(s: string): (r: Option<DateTime>)
    ensures r.Some? ==> Valid(r.value) && r.value.microsecond == 0
  {
    if Shaped(s) then
      var dt := DateTime(DigitsValue(s[0..4]), DigitsValue(s[5..7]), DigitsValue(s[8..10]),
                         DigitsValue(s[11..13]), DigitsValue(s[14..16]), DigitsValue(s[17..19]), 0);
      if Valid(dt) then Some(dt) else None
    else None
  }

  /** Where each field sits in text laid out as `Y-M-D h:m:s` followed by anything. */
  lemma Layout(y: string, mo: string, d: string, h: string, mi: string, se: string, rest: string)
    requires |y| == 4 && |mo| == 2 && |d| == 2 && |h| == 2 && |mi| == 2 && |se| == 2
    ensures var s := y + "-" + mo + "-" + d + " " + h + ":" + mi + ":" + se + rest;
      && s[0..4] == y && s[4] == '-' && s[5..7] == mo && s[7] == '-' && s[8..10] == d && s[10] == ' '
      && s[11..13] == h && s[13] == ':' && s[14..16] == mi && s[16] == ':' && s[17..19] == se
  {
  }

  /** The pieces of the rendering of a date-time, field by field. */
  lemma FormatFields(dt: DateTime)
    requires Valid(dt)
    ensures Pow10(2) == 100 && Pow10(4) == 10000
    ensures var s := Format(dt);
      && s[0..4] == Padded(dt.year, 4) && s[4] == '-'
      && s[5..7] == Padded(dt.month, 2) && s[7] == '-'
      && s[8..10] == Padded(dt.day, 2) && s[10] == ' '
      && s[11..13] == Padded(dt.hour, 2) && s[13] == ':'
      && s[14..16] == Padded(dt.minute, 2) && s[16] == ':'
      && s[17..19] == Padded(dt.second, 2)
  {
    assert Pow10(2) == 100 && Pow10(4) == 10000 && Pow10(6) == 1000000;
    Layout(Padded(dt.year, 4), Padded(dt.month, 2), Padded(dt.day, 2),
           Padded(dt.hour, 2), Padded(dt.minute, 2), Padded(dt.second, 2),
           if dt.microsecond == 0 then "" else "." + Padded(dt.microsecond, 6));
  }

  /** Parsing the rendering of a whole-second date-time gives that date-time back. */
  lemma ParseFormat(dt: DateTime)
    requires Valid(dt) && dt.microsecond == 0
    ensures Parse(Format(dt)) == Some(dt)
  {
    var s := Format(dt);
    FormatFields(dt);
    DigitsValuePadded(dt.year, 4);
    DigitsValuePadded(dt.month, 2);
    DigitsValuePadded(dt.day, 2);
    DigitsValuePadded(dt.hour, 2);
    DigitsValuePadded(dt.minute, 2);
    DigitsValuePadded(dt.second, 2);
  }

  /** Whatever `strptime` accepts here is exactly the rendering of what it returns: no other spelling parses. */
  lemma FormatParse(s: string)
    requires Parse(s).Some?
    ensures Format(Parse(s).value) == s
  {
    var dt := Parse(s).value;
    FormatFields(dt);
    PaddedDigitsValue(s[0..4]);
    PaddedDigitsValue(s[5..7]);
    PaddedDigitsValue(s[8..10]);
    PaddedDigitsValue(s[11..13]);
    PaddedDigitsValue(s[14..16]);
    PaddedDigitsValue(s[17..19]);
    var t := Format(dt);
    assert forall i | 0 <= i < 19 :: t[i] == s[i] by {
      forall i | 0 <= i < 19 ensures t[i] == s[i] {
        if i < 4 { assert t[i] == t[0..4][i]; assert s[i] == s[0..4][i]; }
        else if 5 <= i < 7 { assert t[i] == t[5..7][i - 5]; assert s[i] == s[5..7][i - 5]; }
        else if 8 <= i < 10 { assert t[i] == t[8..10][i - 8]; assert s[i] == s[8..10][i - 8]; }
        else if 11 <= i < 13 { assert t[i] == t[11..13][i - 11]; assert s[i] == s[11..13][i - 11]; }
        else if 14 <= i < 16 { assert t[i] == t[14..16][i - 14]; assert s[i] == s[14..16][i - 14]; }
        else if 17 <= i < 19 { assert t[i] == t[17..19][i - 17]; assert s[i] == s[17..19][i - 17]; }
      }
    }
  }

  /**
   * The round trip the visit tracker relies on: dropping the last seven characters of `str(dt)` and
   * parsing the rest gives `dt` to the whole second, provided `dt` has microseconds to drop.
   */
  lemma ParseDroppedSuffix(dt: DateTime)
    requires Valid(dt) && dt.microsecond != 0
    ensures Parse(DropSuffix(Format(dt))) == Some(WholeSecond(dt))
  {
    var w := WholeSecond(dt);
    assert DropSuffix(Format(dt)) == Format(w);
    ParseFormat(w);
  }

  /** When the microseconds are 0, `str(dt)` has no fraction, the slice cuts into the time and parsing fails. */
  lemma ParseDroppedSuffixWholeSecond(dt: DateTime)
    requires Valid(dt) && dt.microsecond == 0
    ensures Parse(DropSuffix(Format(dt))) == None
  {
  }

  /** Dropping the microseconds moves a date-time back by exactly that many microseconds. */
  lemma MicrosWholeSecond(dt: DateTime)
    requires Valid(dt)
    ensures Valid(WholeSecond(dt)) && Micros(WholeSecond(dt)) == Micros(dt) - dt.microsecond
  {
  }

  /** The same time of day on the next calendar day. */
  function NextDay(dt: DateTime): DateTime
    requires 1 <= dt.month <= 12
  {
    if dt.day < DaysInMonth(dt.year, dt.month) then dt.(day := dt.day + 1)
    else if dt.month < 12 then dt.(month := dt.month + 1, day := 1)
    else dt.(year := dt.year + 1, month := 1, day := 1)
  }

  /** The count of days before a year agrees with the proleptic Gregorian
      closed form: 365 per year plus one per leap year before it. */
  lemma {:induction false} DaysBeforeYearClosedForm(year: int)
    requires year >= 1
    ensures DaysBeforeYear(year) == 365 * (year - 1) + (year - 1) / 4 - (year - 1) / 100 + (year - 1) / 400
  {
    if year > 1 {
      DaysBeforeYearClosedForm(year - 1);
      LeapStep(year - 1);
    }
  }

  /** A year's length is 365 plus its share of the multiples of 4, less those of 100, plus those of 400. */
  lemma LeapStep(n: int)
    ensures YearDays(n) == 365 + (n / 4 - (n - 1) / 4) - (n / 100 - (n - 1) / 100) + (n / 400 - (n - 1) / 400)
  {
    LeapCount(n);
    LeapDivisibility(n);
    if n % 400 == 0 {
      assert YearDays(n) == 366;
    } else if n % 100 == 0 {
      assert YearDays(n) == 365;
    } else if n % 4 == 0 {
      assert YearDays(n) == 366;
    } else {
      assert YearDays(n) == 365;
    }
  }

  /** Going from `n - 1` to `n` passes one multiple of 4, 100 or 400 exactly when `n` is one. */
  lemma LeapCount(n: int)
    ensures n / 4 - (n - 1) / 4 == if n % 4 == 0 then 1 else 0
    ensures n / 100 - (n - 1) / 100 == if n % 100 == 0 then 1 else 0
    ensures n / 400 - (n - 1) / 400 == if n % 400 == 0 then 1 else 0
  {
  }

  /** Every multiple of 400 is a multiple of 100, and every multiple of 100 a multiple of 4. */
  lemma LeapDivisibility(n: int)
    ensures n % 400 == 0 ==> n % 100 == 0
    ensures n % 100 == 0 ==> n % 4 == 0
  {
  }

  /** The twelve months of a year add up to the days of that year. */
  lemma DaysInYear(year: int)
    ensures DaysBeforeMonth(year, 12) + DaysInMonth(year, 12) == YearDays(year)
  {
    assert DaysBeforeMonth(year, 3) == 31 + DaysInMonth(year, 2);
    assert DaysBeforeMonth(year, 12) == DaysBeforeMonth(year, 3) + 275 by {
      assert DaysBeforeMonth(year, 4) == DaysBeforeMonth(year, 3) + 31;
      assert DaysBeforeMonth(year, 5) == DaysBeforeMonth(year, 4) + 30;
      assert DaysBeforeMonth(year, 6) == DaysBeforeMonth(year, 5) + 31;
      assert DaysBeforeMonth(year, 7) == DaysBeforeMonth(year, 6) + 30;
      assert DaysBeforeMonth(year, 8) == DaysBeforeMonth(year, 7) + 31;
      assert DaysBeforeMonth(year, 9) == DaysBeforeMonth(year, 8) + 31;
      assert DaysBeforeMonth(year, 10) == DaysBeforeMonth(year, 9) + 30;
      assert DaysBeforeMonth(year, 11) == DaysBeforeMonth(year, 10) + 31;
      assert DaysBeforeMonth(year, 12) == DaysBeforeMonth(year, 11) + 30;
    }
  }

  /** The next calendar day is one ordinal day, and exactly 24 hours, later. */
  lemma NextDayOneDayLater(dt: DateTime)
    requires Valid(dt) && dt.year < 9999
    ensures Valid(NextDay(dt))
    ensures Ordinal(NextDay(dt)) == Ordinal(dt) + 1
    ensures Micros(NextDay(dt)) == Micros(dt) + MicrosPerDay
  {
    if dt.day == DaysInMonth(dt.year, dt.month) && dt.month == 12 {
      DaysInYear(dt.year);
    }
  }
}
