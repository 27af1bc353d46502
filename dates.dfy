/**
 * The calendar behind `DateTime.ToString("yyyy-MM-dd HH:mm:ss", CultureInfo.InvariantCulture)`:
 * a tick count is split into a proleptic Gregorian date and a time of day, the way .NET's
 * `DateTime` splits it (cycles of 400, 100, 4 and 1 years, then a month table).
 */
module Dates {
  import opened Text
  import opened Records

  /** Days in a common year and in 4-, 100- and 400-year cycles (`4 * 365 + 1`, `25 * 1461 - 1`, `4 * 36524 + 1`). */
  const DaysPerYear: int := 365
  const DaysPer4Years: int := 1461
  const DaysPer100Years: int := 36524
  const DaysPer400Years: int := 146097

  /** The Gregorian leap-year rule. */
  predicate IsLeapYear(year: int) {
    year % 4 == 0 && (year % 100 != 0 || year % 400 == 0)
  }

  /** The days of the year before month `m` (0 to 12), in a leap year or a common one. */
  function DaysToMonth(leap: bool, m: int): int
    requires 0 <= m <= 12
  {
    if leap then [0, 31, 60, 91, 121, 152, 182, 213, 244, 274, 305, 335, 366][m]
    else [0, 31, 59, 90, 120, 151, 181, 212, 243, 273, 304, 334, 365][m]
  }

  function DaysInMonth(year: int, month: int): int
    requires 1 <= month <= 12
  {
    DaysToMonth(IsLeapYear(year), month) - DaysToMonth(IsLeapYear(year), month - 1)
  }

  /** The days from 0001-01-01 to the first day of `year`: 365 a year plus the leap days. */
  function DaysToYear(year: int): int
    requires year >= 1
  {
    var y := year - 1;
    y * 365 + y / 4 - y / 100 + y / 400
  }

  /**
   * A day number split the way `DateTime` splits it: whole 400-year, 100-year, 4-year and
   * 1-year cycles, and the day within the year.
   */
  datatype YearSplit = YearSplit(c400: nat, c100: nat, c4: nat, c1: nat, dayOfYear: nat)

  /**
   * The cycle decomposition of day number `n`. The last day of a 400-year cycle, and the last
   * day of a 4-year cycle, are the 366th day of a leap year: their 100-year and 1-year counts
   * are held at 3.
   */
  function SplitDays(n: nat): (s: YearSplit)
    ensures n == DaysPer400Years * s.c400 + DaysPer100Years * s.c100 + DaysPer4Years * s.c4 + DaysPerYear * s.c1 + s.dayOfYear
    ensures s.c100 <= 3 && s.c4 <= 24 && s.c1 <= 3
    ensures s.dayOfYear < 365 || (s.dayOfYear == 365 && s.c1 == 3 && (s.c4 != 24 || s.c100 == 3))
  {
    var y400 := n / DaysPer400Years;
    var n1 := n - y400 * DaysPer400Years;
    var y100 := if n1 / DaysPer100Years == 4 then 3 else n1 / DaysPer100Years;
    var n2 := n1 - y100 * DaysPer100Years;
    var y4 := n2 / DaysPer4Years;
    var n3 := n2 - y4 * DaysPer4Years;
    var y1 := if n3 / DaysPerYear == 4 then 3 else n3 / DaysPerYear;
    var n4 := n3 - y1 * DaysPerYear;
    YearSplit(y400, y100, y4, y1, n4)
  }

  function YearOf(s: YearSplit): int {
    400 * s.c400 + 100 * s.c100 + 4 * s.c4 + s.c1 + 1
  }

  /** The year of a split starts `DaysToYear` days in. */
  lemma SplitDaysYear(n: nat)
    ensures var s := SplitDays(n);
      YearOf(s) >= 1 && DaysToYear(YearOf(s)) + s.dayOfYear == n
  {
    CyclesYear(SplitDays(n), n);
  }

  /** Any cycle decomposition of `n`: its year starts `DaysToYear` days in. */
  lemma CyclesYear(s: YearSplit, n: nat)
    requires n == DaysPer400Years * s.c400 + DaysPer100Years * s.c100 + DaysPer4Years * s.c4 + DaysPerYear * s.c1 + s.dayOfYear
    requires s.c100 <= 3 && s.c4 <= 24 && s.c1 <= 3
    ensures DaysToYear(YearOf(s)) + s.dayOfYear == n
  {
    var y := YearOf(s) - 1;
    assert y == 400 * s.c400 + 100 * s.c100 + 4 * s.c4 + s.c1;
    assert y * 365 == 146000 * s.c400 + 36500 * s.c100 + 1460 * s.c4 + 365 * s.c1;
    DivBy(y, 4, 100 * s.c400 + 25 * s.c100 + s.c4, s.c1);
    DivBy(y, 100, 4 * s.c400 + s.c100, 4 * s.c4 + s.c1);
    DivBy(y, 400, s.c400, 100 * s.c100 + 4 * s.c4 + s.c1);
  }

  /** The year of a split is a leap year exactly when its 1-year count is 3 and it does not end a century that is not a 400-year one. */
  lemma SplitDaysLeap(n: nat)
    ensures var s := SplitDays(n);
      IsLeapYear(YearOf(s)) <==> s.c1 == 3 && (s.c4 != 24 || s.c100 == 3)
  {
    var s := SplitDays(n);
    var year := YearOf(s);
    if s.c1 == 3 {
      DivBy(year, 4, 100 * s.c400 + 25 * s.c100 + s.c4 + 1, 0);
    } else {
      DivBy(year, 4, 100 * s.c400 + 25 * s.c100 + s.c4, s.c1 + 1);
    }
    if s.c4 == 24 && s.c1 == 3 {
      DivBy(year, 100, 4 * s.c400 + s.c100 + 1, 0);
    } else {
      DivBy(year, 100, 4 * s.c400 + s.c100, 4 * s.c4 + s.c1 + 1);
    }
    if s.c100 == 3 && s.c4 == 24 && s.c1 == 3 {
      DivBy(year, 400, s.c400 + 1, 0);
    } else {
      DivBy(year, 400, s.c400, 100 * s.c100 + 4 * s.c4 + s.c1 + 1);
    }
  }

  /** The month holding day `n` of the year (counted from 0), searching from month `m` on. */
  function MonthFrom(leap: bool, n: int, m: int): (month: int)
    requires 1 <= m <= 12 && DaysToMonth(leap, m - 1) <= n < DaysToMonth(leap, 12)
    ensures m <= month <= 12 && DaysToMonth(leap, month - 1) <= n < DaysToMonth(leap, month)
    decreases 12 - m
  {
    if n < DaysToMonth(leap, m) then m else MonthFrom(leap, n, m + 1)
  }

  /** Every month has 28 to 31 days. */
  lemma MonthLength(leap: bool, m: int)
    requires 1 <= m <= 12
    ensures 28 <= DaysToMonth(leap, m) - DaysToMonth(leap, m - 1) <= 31
  {
  }

  /** A calendar date and a time of day, as the format string reads them. */
  datatype Civil = Civil(year: int, month: int, day: int, hour: int, minute: int, second: int)

  /** The largest day number a `DateTime` can hold (that of 9999-12-31). */
  const MaxDay: int := MaxTicks / TicksPerDay

  /** `DateTime.Year`, `Month` and `Day` for day number `days`, at midnight. */
  function DateOf(days: nat): (c: Civil)
    requires days <= MaxDay
    ensures 1 <= c.year <= 9999 && 1 <= c.month <= 12 && 1 <= c.day <= DaysInMonth(c.year, c.month)
    ensures c.hour == 0 && c.minute == 0 && c.second == 0
  {
    var s := SplitDays(days);
    SplitDaysLeap(days);
    YearBound(days);
    var year := YearOf(s);
    var leap := IsLeapYear(year);
    var month := MonthFrom(leap, s.dayOfYear, 1);
    Civil(year, month, s.dayOfYear - DaysToMonth(leap, month - 1) + 1, 0, 0, 0)
  }

  /**
   * `DateTime.Year`, `Month`, `Day`, `Hour`, `Minute` and `Second`: the date of day number
   * `ticks / TicksPerDay`, and the hour, minute and second counters.
   */
  function ToCivil(t: DateTime): (c: Civil)
    ensures 1 <= c.year <= 9999 && 1 <= c.month <= 12 && 1 <= c.day <= DaysInMonth(c.year, c.month)
    ensures 0 <= c.hour < 24 && 0 <= c.minute < 60 && 0 <= c.second < 60
    ensures InRange(c)
  {
    var date := DateOf(t / TicksPerDay);
    MonthLength(IsLeapYear(date.year), date.month);
    date.(hour := (t / TicksPerHour) % 24, minute := (t / TicksPerMinute) % 60, second := (t / TicksPerSecond) % 60)
  }

  /** No `DateTime` lies beyond the year 9999. */
  lemma YearBound(days: nat)
    requires days <= MaxDay
    ensures YearOf(SplitDays(days)) <= 9999
  {
  }

  /**
   * The date and the time of day add back up to the tick count, to the second: the day
   * number is the days before the year, before the month and before the day.
   */
  lemma CivilRoundTrip(t: DateTime)
    ensures var c := ToCivil(t);
      var days := DaysToYear(c.year) + DaysToMonth(IsLeapYear(c.year), c.month - 1) + c.day - 1;
      days * 86400 + c.hour * 3600 + c.minute * 60 + c.second == t / TicksPerSecond
  {
    var days := t / TicksPerDay;
    SplitDaysYear(days);
    TimeOfDay(t);
  }

  /** The hour, minute and second counters are the time of day of the day number. */
  lemma TimeOfDay(t: DateTime)
    ensures (t / TicksPerDay) * 86400 + ((t / TicksPerHour) % 24) * 3600 + ((t / TicksPerMinute) % 60) * 60 + (t / TicksPerSecond) % 60
      == t / TicksPerSecond
  {
    MinutesOfSeconds(t);
    HoursOfMinutes(t);
    DaysOfHours(t);
  }

  lemma MinutesOfSeconds(t: DateTime)
    ensures t / TicksPerMinute == (t / TicksPerSecond) / 60
  {
    var sec := t / TicksPerSecond;
    DivBy(t, TicksPerMinute, sec / 60, (sec % 60) * TicksPerSecond + t % TicksPerSecond);
  }

  lemma HoursOfMinutes(t: DateTime)
    ensures t / TicksPerHour == (t / TicksPerMinute) / 60
  {
    var min := t / TicksPerMinute;
    DivBy(t, TicksPerHour, min / 60, (min % 60) * TicksPerMinute + t % TicksPerMinute);
  }

  lemma DaysOfHours(t: DateTime)
    ensures t / TicksPerDay == (t / TicksPerHour) / 24
  {
    var hour := t / TicksPerHour;
    DivBy(t, TicksPerDay, hour / 24, (hour % 24) * TicksPerHour + t % TicksPerHour);
  }

  /** `yyyy-MM-dd HH:mm:ss`, with the invariant culture's digits and separators. */
  function Format(t: DateTime): string {
    Render(ToCivil(t))
  }

  /** Whether every component lies in the range the format gives it digits for. */
  predicate InRange(c: Civil) {
    0 <= c.year <= 9999 && 0 <= c.month <= 99 && 0 <= c.day <= 99
    && 0 <= c.hour <= 99 && 0 <= c.minute <= 99 && 0 <= c.second <= 99
  }

  /** The components, each zero-padded (the year to four digits, the others to two). */
  function Render(c: Civil): string
    requires InRange(c)
  {
    Stamp(ZeroPad(c.year, 4), ZeroPad(c.month, 2), ZeroPad(c.day, 2), ZeroPad(c.hour, 2), ZeroPad(c.minute, 2), ZeroPad(c.second, 2))
  }

  function Stamp(year: string, month: string, day: string, hour: string, minute: string, second: string): string {
    year + "-" + month + "-" + day + " " + hour + ":" + minute + ":" + second
  }

  /** Where the fields of a stamp of four- and two-character fields sit. */
  lemma StampLayout(year: string, month: string, day: string, hour: string, minute: string, second: string)
    requires |year| == 4 && |month| == 2 && |day| == 2 && |hour| == 2 && |minute| == 2 && |second| == 2
    ensures var s := Stamp(year, month, day, hour, minute, second);
      && |s| == 19
      && s[..4] == year && s[5..7] == month && s[8..10] == day
      && s[11..13] == hour && s[14..16] == minute && s[17..] == second
      && s[4] == '-' && s[7] == '-' && s[10] == ' ' && s[13] == ':' && s[16] == ':'
  {
  }

  /** A number below `10^w` padded to `w` digits takes exactly `w` characters and reads back as itself. */
  lemma PaddedField(n: nat, w: nat)
    requires 1 <= w && n < Pow10(w)
    ensures |ZeroPad(n, w)| == w && DecimalValue(ZeroPad(n, w)) == n
  {
    ZeroPadWidth(n, w);
    ZeroPadRoundTrip(n, w);
  }

  /**
   * The rendering is 19 characters: four digits of year, then two digits each of month, day,
   * hour, minute and second, separated by `-`, `-`, ` `, `:` and `:`; each field reads back as
   * the component it renders.
   */
  lemma RenderLayout(c: Civil)
    requires InRange(c)
    ensures var s := Render(c);
      && |s| == 19
      && s[4] == '-' && s[7] == '-' && s[10] == ' ' && s[13] == ':' && s[16] == ':'
      && AllDigits(s[..4]) && DecimalValue(s[..4]) == c.year
      && AllDigits(s[5..7]) && DecimalValue(s[5..7]) == c.month
      && AllDigits(s[8..10]) && DecimalValue(s[8..10]) == c.day
      && AllDigits(s[11..13]) && DecimalValue(s[11..13]) == c.hour
      && AllDigits(s[14..16]) && DecimalValue(s[14..16]) == c.minute
      && AllDigits(s[17..]) && DecimalValue(s[17..]) == c.second
  {
    PaddedField(c.year, 4);
    PaddedField(c.month, 2);
    PaddedField(c.day, 2);
    PaddedField(c.hour, 2);
    PaddedField(c.minute, 2);
    PaddedField(c.second, 2);
    StampLayout(ZeroPad(c.year, 4), ZeroPad(c.month, 2), ZeroPad(c.day, 2), ZeroPad(c.hour, 2), ZeroPad(c.minute, 2), ZeroPad(c.second, 2));
  }

  /** The characters a rendering is made of: digits, `-`, ` ` and `:`. */
  predicate IsStampChar(ch: char) {
    IsDigit(ch) || ch == '-' || ch == ' ' || ch == ':'
  }

  predicate StampChars(s: string) {
    forall i | 0 <= i < |s| :: IsStampChar(s[i])
  }

  lemma ConcatStampChars(a: string, b: string)
    requires StampChars(a) && StampChars(b)
    ensures StampChars(a + b)
  {
    var s := a + b;
    forall i | 0 <= i < |s| ensures IsStampChar(s[i]) {
      if i < |a| { assert s[i] == a[i]; } else { assert s[i] == b[i - |a|]; }
    }
  }

  /** A stamp of digit fields holds only digits and its separators. */
  lemma StampPlain(year: string, month: string, day: string, hour: string, minute: string, second: string)
    requires AllDigits(year) && AllDigits(month) && AllDigits(day) && AllDigits(hour) && AllDigits(minute) && AllDigits(second)
    ensures StampChars(Stamp(year, month, day, hour, minute, second))
  {
    assert StampChars("-") && StampChars(" ") && StampChars(":");
    ConcatStampChars(year, "-");
    ConcatStampChars(year + "-", month);
    ConcatStampChars(year + "-" + month, "-");
    ConcatStampChars(year + "-" + month + "-", day);
    ConcatStampChars(year + "-" + month + "-" + day, " ");
    ConcatStampChars(year + "-" + month + "-" + day + " ", hour);
    ConcatStampChars(year + "-" + month + "-" + day + " " + hour, ":");
    ConcatStampChars(year + "-" + month + "-" + day + " " + hour + ":", minute);
    ConcatStampChars(year + "-" + month + "-" + day + " " + hour + ":" + minute, ":");
    ConcatStampChars(year + "-" + month + "-" + day + " " + hour + ":" + minute + ":", second);
  }

  /** The rendering holds only digits, `-`, ` ` and `:`. */
  lemma RenderPlain(c: Civil)
    requires InRange(c)
    ensures StampChars(Render(c))
  {
    StampPlain(ZeroPad(c.year, 4), ZeroPad(c.month, 2), ZeroPad(c.day, 2), ZeroPad(c.hour, 2), ZeroPad(c.minute, 2), ZeroPad(c.second, 2));
  }

  /** A rendered date holds only digits, `-`, ` ` and `:`; in particular no comma, quote or line feed. */
  lemma FormatPlain(t: DateTime)
    ensures StampChars(Format(t))
    ensures ',' !in Format(t) && '"' !in Format(t) && '\n' !in Format(t)
  {
    var s := Format(t);
    RenderPlain(ToCivil(t));
    forall i | 0 <= i < |s| ensures s[i] != ',' && s[i] != '"' && s[i] != '\n' {
      assert IsStampChar(s[i]);
    }
  }

  /** Euclidean division has a unique quotient and remainder. */
  lemma DivBy(x: int, k: int, q: int, r: int)
    requires k > 0 && 0 <= r < k && x == q * k + r
    ensures x / k == q && x % k == r
  {
    var q', r' := x / k, x % k;
    assert (q' - q) * k == r - r' by {
      assert q' * k + r' == q * k + r;
      assert (q' - q) * k == q' * k - q * k;
    }
    if q' > q {
      AtLeastOnce(q' - q, k);
    } else if q' < q {
      AtLeastOnce(q - q', k);
    }
  }

  lemma {:induction false} AtLeastOnce(a: int, k: int)
    requires a >= 1 && k > 0
    ensures a * k >= k
  {
    if a > 1 {
      AtLeastOnce(a - 1, k);
      assert a * k == (a - 1) * k + k;
    }
  }
}
