/**
  * Proleptic Gregorian calendar arithmetic, the calendar effect of the
  * JavaScript `Date` constructor called with (year, monthIndex, day), and
  * the YYYY-MM-DD text form of a date.
  */
module Calendar {
  import opened Strings

  datatype Date = Date(year: int, month: int, day: int)

  /** Divisible by 4, except centuries, except multiples of 400. */
  predicate IsLeap(y: int) { y % 4 == 0 && (y % 100 != 0 || y % 400 == 0) }

  function DaysInMonth(y: int, m: int): (n: int)
    requires 1 <= m <= 12
    ensures 28 <= n <= 31
  {
    if m == 2 then (if IsLeap(y) then 29 else 28)
    else if m == 4 || m == 6 || m == 9 || m == 11 then 30
    else 31
  }

  /** The triple names a day that exists: month 1-12, day within that month. */
  predicate IsRealDate(dt: Date)
  {
    1 <= dt.month <= 12 && 1 <= dt.day <= DaysInMonth(dt.year, dt.month)
  }

  /** Chronological order of dates (lexicographic on year, month, day). */
  predicate Before(a: Date, b: Date)
  {
    a.year < b.year || (a.year == b.year && (a.month < b.month || (a.month == b.month && a.day < b.day)))
  }

  function NextDay(dt: Date): (r: Date)
    requires IsRealDate(dt)
    ensures IsRealDate(r) && Before(dt, r)
  {
    if dt.day < DaysInMonth(dt.year, dt.month) then Date(dt.year, dt.month, dt.day + 1)
    else if dt.month < 12 then Date(dt.year, dt.month + 1, 1)
    else Date(dt.year + 1, 1, 1)
  }

  function PrevDay(dt: Date): (r: Date)
    requires IsRealDate(dt)
    ensures IsRealDate(r) && Before(r, dt)
  {
    if dt.day > 1 then Date(dt.year, dt.month, dt.day - 1)
    else if dt.month > 1 then Date(dt.year, dt.month - 1, DaysInMonth(dt.year, dt.month - 1))
    else Date(dt.year - 1, 12, 31)
  }

  /** PrevDay and NextDay undo each other. */
  lemma PrevNextInverse(dt: Date)
    requires IsRealDate(dt)
    ensures NextDay(PrevDay(dt)) == dt && PrevDay(NextDay(dt)) == dt
  {
  }

  /** NextDay is the immediate successor: no existing date lies strictly between. */
  lemma NextDayImmediate(dt: Date, x: Date)
    requires IsRealDate(dt) && IsRealDate(x) && Before(dt, x)
    ensures x == NextDay(dt) || Before(NextDay(dt), x)
  {
  }

  /** The date `k` days after `dt` (before it when `k` is negative). */
  function AddDays(dt: Date, k: int): (r: Date)
    requires IsRealDate(dt)
    ensures IsRealDate(r)
    ensures k > 0 ==> Before(dt, r)
    ensures k < 0 ==> Before(r, dt)
    decreases if k >= 0 then k else -k
  {
    if k == 0 then dt
    else if k > 0 then AddDays(NextDay(dt), k - 1)
    else AddDays(PrevDay(dt), k + 1)
  }

  lemma {:induction false} AddDaysWithinMonth(dt: Date, k: nat)
    requires IsRealDate(dt) && dt.day + k <= DaysInMonth(dt.year, dt.month)
    ensures AddDays(dt, k) == Date(dt.year, dt.month, dt.day + k)
    decreases k
  {
    if k > 0 {
      AddDaysWithinMonth(NextDay(dt), k - 1);
    }
  }

  /** ECMAScript MakeFullYear: the multi-argument constructor reads years 0-99 as 1900-1999. */
  function MakeFullYear(y: int): int
  {
    if 0 <= y <= 99 then 1900 + y else y
  }

  /**
    * The calendar date of `new Date(y, monthIndex, d)`: the month index
    * carries into the year (floor division, non-negative remainder) and the
    * day is an offset from the first of that month, so out-of-range months
    * and days roll over instead of failing.
    */
  function JsLocalDate(y: int, monthIndex: int, d: int): (r: Date)
    ensures IsRealDate(r)
  {
    AddDays(Date(MakeFullYear(y) + monthIndex / 12, monthIndex % 12 + 1, 1), d - 1)
  }

  /**
    * The existence check of the source: build `new Date(y, m - 1, d)` and
    * compare `getFullYear()`, `getMonth()` and `getDate()` with the inputs.
    */
  predicate JsDateRoundTrips(y: int, m: int, d: int)
  {
    var dt := JsLocalDate(y, m - 1, d);
    dt.year == y && dt.month - 1 == m - 1 && dt.day == d
  }

  /**
    * The round trip accepts exactly the existing Gregorian dates, except
    * that every date in the years 0-99 is rejected because the constructor
    * moves it to 1900-1999.
    */
  lemma JsDateRoundTripsIff(y: int, m: int, d: int)
    ensures JsDateRoundTrips(y, m, d) <==> !(0 <= y <= 99) && IsRealDate(Date(y, m, d))
  {
    if !(0 <= y <= 99) && IsRealDate(Date(y, m, d)) {
      assert (m - 1) / 12 == 0 && (m - 1) % 12 == m - 1;
      AddDaysWithinMonth(Date(y, m, 1), d - 1);
    }
    if 0 <= y <= 99 && 1 <= m <= 12 && 1 <= d {
      assert (m - 1) / 12 == 0 && (m - 1) % 12 == m - 1;
      AddDaysYearGrows(Date(1900 + y, m, 1), d - 1);
    }
  }

  lemma {:induction false} AddDaysYearGrows(dt: Date, k: nat)
    requires IsRealDate(dt)
    ensures AddDays(dt, k).year >= dt.year
    decreases k
  {
    if k > 0 {
      AddDaysYearGrows(NextDay(dt), k - 1);
    }
  }

  /** `/^\d{4}-\d{2}-\d{2}$/`: four digits, dash, two digits, dash, two digits, nothing more. */
  predicate MatchesDatePattern(s: string)
  {
    |s| == 10 && AllDigits(s[..4]) && s[4] == '-' && AllDigits(s[5..7]) && s[7] == '-' && AllDigits(s[8..])
  }

  /** `s.split('-').map(Number)` on a string of the YYYY-MM-DD shape. */
  function ParseDate(s: string): (dt: Date)
    requires MatchesDatePattern(s)
    ensures InFormatRange(dt)
  {
    Date(DigitsValue(s[..4]), DigitsValue(s[5..7]), DigitsValue(s[8..]))
  }

  /** The dates whose parts fit the four-, two- and two-digit fields. */
  predicate InFormatRange(dt: Date)
  {
    0 <= dt.year < 10000 && 0 <= dt.month < 100 && 0 <= dt.day < 100
  }

  /** YYYY-MM-DD with every part zero padded, as `toISOString` writes the date part. */
  function FormatDate(dt: Date): (s: string)
    requires InFormatRange(dt)
    ensures |s| == 10
  {
    PadDigits(dt.year, 4) + ("-" + (PadDigits(dt.month, 2) + ("-" + PadDigits(dt.day, 2))))
  }

  /** Formatting then parsing gives the date back, and the text has the pattern. */
  lemma ParseFormat(dt: Date)
    requires InFormatRange(dt)
    ensures MatchesDatePattern(FormatDate(dt)) && ParseDate(FormatDate(dt)) == dt
  {
    var s := FormatDate(dt);
    assert s[..4] == PadDigits(dt.year, 4);
    assert s[5..7] == PadDigits(dt.month, 2);
    assert s[8..] == PadDigits(dt.day, 2);
    PadDigitsValue(dt.year, 4);
    PadDigitsValue(dt.month, 2);
    PadDigitsValue(dt.day, 2);
  }

  /** Parsing then formatting gives the text back. */
  lemma FormatParse(s: string)
    requires MatchesDatePattern(s)
    ensures FormatDate(ParseDate(s)) == s
  {
    DigitsValuePad(s[..4]);
    DigitsValuePad(s[5..7]);
    DigitsValuePad(s[8..]);
    assert s == s[..4] + ("-" + (s[5..7] + ("-" + s[8..])));
  }

  lemma {:induction false} LexLessSamePrefix(c: string, x: string, y: string)
    ensures LexLess(c + x, c + y) <==> LexLess(x, y)
  {
    LexLessConcat(c, x, c, y);
    LexLessIrreflexive(c);
  }

  /** On the fixed-width form, string order is chronological order. */
  lemma FormatDateOrder(a: Date, b: Date)
    requires InFormatRange(a) && InFormatRange(b)
    ensures LexLess(FormatDate(a), FormatDate(b)) <==> Before(a, b)
  {
    var ya, yb := PadDigits(a.year, 4), PadDigits(b.year, 4);
    var ma, mb := PadDigits(a.month, 2), PadDigits(b.month, 2);
    var da, db := PadDigits(a.day, 2), PadDigits(b.day, 2);
    PadDigitsOrder(a.year, b.year, 4);
    PadDigitsOrder(a.month, b.month, 2);
    PadDigitsOrder(a.day, b.day, 2);
    PadDigitsValue(a.year, 4);
    PadDigitsValue(b.year, 4);
    PadDigitsValue(a.month, 2);
    PadDigitsValue(b.month, 2);
    LexLessConcat(ya, "-" + (ma + ("-" + da)), yb, "-" + (mb + ("-" + db)));
    LexLessSamePrefix("-", ma + ("-" + da), mb + ("-" + db));
    LexLessConcat(ma, "-" + da, mb, "-" + db);
    LexLessSamePrefix("-", da, db);
  }

  /** Two YYYY-MM-DD strings compare as text exactly as their dates compare in time. */
  lemma PatternOrderIsChronological(a: string, b: string)
    requires MatchesDatePattern(a) && MatchesDatePattern(b)
    ensures LexLess(a, b) <==> Before(ParseDate(a), ParseDate(b))
  {
    FormatParse(a);
    FormatParse(b);
    FormatDateOrder(ParseDate(a), ParseDate(b));
  }

  /**
    * The Gregorian reference for a date parameter: the YYYY-MM-DD shape, a
    * year of at least 100 and a day that exists.
    */
  predicate IsValidDateString(s: string)
  {
    MatchesDatePattern(s) && ParseDate(s).year >= 100 && IsRealDate(ParseDate(s))
  }
}
