/**
  * What the text boundaries of the date filter select, stated in time.
  * `toISOString` text sorts as the instants it prints, so a record whose
  * `submittedAt` was printed from an instant is kept exactly when the
  * calendar date in Japan (UTC+9) at that instant lies in the requested
  * range (backend/src/lib/date-filter.ts).
  */
module JstWindow {
  import opened Strings
  import opened Types
  import opened Calendar
  import opened DateFilter

  /** Chronological order of instants. */
  predicate Earlier(a: Instant, b: Instant)
  {
    Before(a.date, b.date) || (a.date == b.date && a.ms < b.ms)
  }

  /** The calendar date in Japan at an instant: the UTC date, or the next one from 15:00 UTC on. */
  function JstDate(t: Instant): (d: Date)
    requires IsInstant(t)
    ensures IsRealDate(d)
    ensures d == t.date || d == NextDay(t.date)
  {
    if t.ms + JstOffsetHours * MsPerHour < MsPerDay then t.date else NextDay(t.date)
  }

  /** Hours, minutes, seconds and milliseconds of `x` compared in that order. */
  predicate ClockBefore(x: int, y: int)
  {
    var hx, hy := x / MsPerHour, y / MsPerHour;
    var mx, my := x / MsPerMinute % 60, y / MsPerMinute % 60;
    var sx, sy := x / MsPerSecond % 60, y / MsPerSecond % 60;
    var fx, fy := x % MsPerSecond, y % MsPerSecond;
    hx < hy || (hx == hy && (mx < my || (mx == my && (sx < sy || (sx == sy && fx < fy)))))
  }

  /** On the times of a day, numeric order is the field-by-field order of the clock. */
  lemma ClockFieldsOrder(x: int, y: int)
    requires 0 <= x < MsPerDay && 0 <= y < MsPerDay
    ensures x < y <==> ClockBefore(x, y)
  {
    var sx, sy := x / MsPerSecond, y / MsPerSecond;
    var mx, my := x / MsPerMinute, y / MsPerMinute;
    SecondsSplit(x);
    SecondsSplit(y);
    QuotientOrder(x, y, MsPerSecond);
    QuotientOrder(sx, sy, 60);
    QuotientOrder(mx, my, 60);
  }

  /** Whole seconds, minutes and hours of `x` are obtained by successive division. */
  lemma SecondsSplit(x: int)
    requires x >= 0
    ensures x / MsPerSecond / 60 == x / MsPerMinute
    ensures x / MsPerMinute / 60 == x / MsPerHour
  {
  }

  /** For the divisors of the clock, quotient then remainder order is numeric order. */
  lemma QuotientOrder(x: int, y: int, d: int)
    requires x >= 0 && y >= 0 && (d == 60 || d == MsPerSecond)
    ensures x < y <==> x / d < y / d || (x / d == y / d && x % d < y % d)
  {
    if d == 60 {
      assert x < y <==> x / 60 < y / 60 || (x / 60 == y / 60 && x % 60 < y % 60);
    } else {
      assert x < y <==> x / 1000 < y / 1000 || (x / 1000 == y / 1000 && x % 1000 < y % 1000);
    }
  }

  /** On HH:mm:ss.sss text, string order is the order of the times. */
  lemma FormatTimeOrder(x: int, y: int)
    requires 0 <= x < MsPerDay && 0 <= y < MsPerDay
    ensures LexLess(FormatTimeOfDay(x), FormatTimeOfDay(y)) <==> x < y
  {
    ClockFieldsOrder(x, y);
    ClockTextOrder(x / MsPerHour, x / MsPerMinute % 60, x / MsPerSecond % 60, x % MsPerSecond,
                   y / MsPerHour, y / MsPerMinute % 60, y / MsPerSecond % 60, y % MsPerSecond);
  }

  /** The HH:mm:ss.sss text of clock fields. */
  function ClockText(h: nat, m: nat, s: nat, f: nat): string
    requires h < 100 && m < 100 && s < 100 && f < 1000
  {
    assert Pow10(2) == 100 && Pow10(3) == 1000;
    PadDigits(h, 2) + (":" + (PadDigits(m, 2) + (":" + (PadDigits(s, 2) + ("." + PadDigits(f, 3))))))
  }

  /** Clock texts compare field by field. */
  lemma ClockTextOrder(hx: nat, mx: nat, sx: nat, fx: nat, hy: nat, my: nat, sy: nat, fy: nat)
    requires hx < 100 && mx < 100 && sx < 100 && fx < 1000
    requires hy < 100 && my < 100 && sy < 100 && fy < 1000
    ensures LexLess(ClockText(hx, mx, sx, fx), ClockText(hy, my, sy, fy)) <==>
      hx < hy || (hx == hy && (mx < my || (mx == my && (sx < sy || (sx == sy && fx < fy)))))
  {
    var fa, fb := PadDigits(fx, 3), PadDigits(fy, 3);
    MillisOrder(fx, fy);
    var sa, sb := PadDigits(sx, 2) + ("." + fa), PadDigits(sy, 2) + ("." + fb);
    FieldThenRest(sx, sy, ".", fa, fb);
    var ma, mb := PadDigits(mx, 2) + (":" + sa), PadDigits(my, 2) + (":" + sb);
    FieldThenRest(mx, my, ":", sa, sb);
    FieldThenRest(hx, hy, ":", ma, mb);
  }

  lemma MillisOrder(x: nat, y: nat)
    requires x < 1000 && y < 1000
    ensures LexLess(PadDigits(x, 3), PadDigits(y, 3)) <==> x < y
  {
    assert Pow10(3) == 1000;
    PadDigitsOrder(x, y, 3);
  }

  /** A two-digit field, a separator and the rest compare by the field first, then by the rest. */
  lemma FieldThenRest(x: nat, y: nat, sep: string, rx: string, ry: string)
    requires x < 100 && y < 100
    ensures LexLess(PadDigits(x, 2) + (sep + rx), PadDigits(y, 2) + (sep + ry)) <==>
      x < y || (x == y && LexLess(rx, ry))
  {
    assert Pow10(2) == 100;
    PadDigitsOrder(x, y, 2);
    PadDigitsValue(x, 2);
    PadDigitsValue(y, 2);
    LexLessConcat(PadDigits(x, 2), sep + rx, PadDigits(y, 2), sep + ry);
    LexLessSamePrefix(sep, rx, ry);
  }

  /** `toISOString` text sorts exactly as the instants it prints. */
  lemma FormatIsoOrder(a: Instant, b: Instant)
    requires IsInstant(a) && 0 <= a.date.year < 10000
    requires IsInstant(b) && 0 <= b.date.year < 10000
    ensures LexLess(FormatIso(a), FormatIso(b)) <==> Earlier(a, b)
  {
    FormatDateOrder(a.date, b.date);
    ParseFormat(a.date);
    ParseFormat(b.date);
    FormatTimeOrder(a.ms, b.ms);
    var ta, tb := FormatTimeOfDay(a.ms), FormatTimeOfDay(b.ms);
    LexLessConcat(FormatDate(a.date), "T" + (ta + "Z"), FormatDate(b.date), "T" + (tb + "Z"));
    LexLessSamePrefix("T", ta + "Z", tb + "Z");
    LexLessConcat(ta, "Z", tb, "Z");
    LexLessIrreflexive("Z");
  }

  /** The dates after the day before `d` are the dates from `d` on. */
  lemma AfterPrevDay(d: Date, x: Date)
    requires IsRealDate(d) && IsRealDate(x)
    ensures Before(PrevDay(d), x) <==> !Before(x, d)
  {
    PrevNextInverse(d);
    if Before(PrevDay(d), x) {
      NextDayImmediate(PrevDay(d), x);
    }
  }

  /** Moving both dates one day on keeps their order. */
  lemma NextDayMonotone(a: Date, b: Date)
    requires IsRealDate(a) && IsRealDate(b)
    ensures Before(a, b) <==> Before(NextDay(a), NextDay(b))
  {
    if Before(a, b) {
      NextDayImmediate(a, b);
    } else if Before(b, a) {
      NextDayImmediate(b, a);
    }
  }

  /** The start boundary of a date is reached by the instants whose Japanese date is that date or later. */
  lemma StartBoundaryWindow(date: string, t: Instant)
    requires IsValidDateString(date)
    requires IsInstant(t) && 0 <= t.date.year < 10000
    ensures LexLessEq(ToJstUtcTimestamp(date, From), FormatIso(t)) <==> !Before(JstDate(t), ParseDate(date))
  {
    var d := ParseDate(date);
    var s := Instant(PrevDay(d), 15 * MsPerHour);
    StartBoundary(d);
    NotLessIsLessEq(FormatIso(t), FormatIso(s));
    FormatIsoOrder(t, s);
    PrevNextInverse(d);
    AfterPrevDay(d, t.date);
    NextDayMonotone(t.date, PrevDay(d));
  }

  /** The end boundary of a date is not passed by the instants whose Japanese date is that date or earlier. */
  lemma EndBoundaryWindow(date: string, t: Instant)
    requires IsValidDateString(date)
    requires IsInstant(t) && 0 <= t.date.year < 10000
    ensures LexLessEq(FormatIso(t), ToJstUtcTimestamp(date, To)) <==> !Before(ParseDate(date), JstDate(t))
  {
    var d := ParseDate(date);
    var e := Instant(d, 14 * MsPerHour + 59 * MsPerMinute + 59 * MsPerSecond + 999);
    EndBoundary(d);
    FormatParse(date);
    NotLessIsLessEq(FormatIso(e), FormatIso(t));
    FormatIsoOrder(e, t);
    if Before(t.date, d) {
      NextDayImmediate(t.date, d);
    }
  }

  /** The Japanese date of an instant lies in the range a parameter pair sets. */
  predicate InJstRange(t: Instant, params: DateRangeParams)
    requires IsInstant(t)
    requires IsSet(params.from) ==> IsValidDateString(params.from.value)
    requires IsSet(params.to) ==> IsValidDateString(params.to.value)
  {
    && (IsSet(params.from) ==> !Before(JstDate(t), ParseDate(params.from.value)))
    && (IsSet(params.to) ==> !Before(ParseDate(params.to.value), JstDate(t)))
  }

  /**
    * A record whose `submittedAt` is `toISOString` of the instant `t` is
    * selected exactly when the Japanese date at `t` is in the range.
    */
  lemma SelectedIffJstDateInRange(response: FeedbackResponse, params: DateRangeParams, t: Instant)
    requires IsSet(params.from) ==> IsValidDateString(params.from.value)
    requires IsSet(params.to) ==> IsValidDateString(params.to.value)
    requires IsInstant(t) && 0 <= t.date.year < 10000 && SubmittedAtText(response) == Some(FormatIso(t))
    ensures Selected(response, params) <==> InJstRange(t, params)
  {
    if IsSet(params.from) { StartBoundaryWindow(params.from.value, t); }
    if IsSet(params.to) { EndBoundaryWindow(params.to.value, t); }
  }

  /**
    * `filterByDateRange` keeps exactly the records submitted on a Japanese
    * date inside the range, when each record's `submittedAt` was printed
    * from the instant `at` gives for it.
    */
  lemma FilterKeepsJstRange(responses: seq<FeedbackResponse>, params: DateRangeParams, at: FeedbackResponse -> Instant)
    requires forall x :: x in responses ==> IsInstant(at(x)) && 0 <= at(x).date.year < 10000
    requires forall x :: x in responses ==> SubmittedAtText(x) == Some(FormatIso(at(x)))
    requires IsSet(params.from) ==> IsValidDateString(params.from.value)
    requires IsSet(params.to) ==> IsValidDateString(params.to.value)
    ensures forall x :: x in FilterByDateRange(responses, params) <==> x in responses && InJstRange(at(x), params)
  {
    forall x | x in responses
      ensures x in FilterByDateRange(responses, params) <==> InJstRange(at(x), params)
    {
      SelectedIffJstDateInRange(x, params, at(x));
    }
  }
}
