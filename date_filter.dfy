/**
  * Date-range validation and filtering of the CSV export
  * (backend/src/lib/date-filter.ts). Dates are calendar dates in Japan
  * Standard Time (UTC+9, no daylight saving); record timestamps are UTC
  * ISO 8601 strings compared as text.
  */
module DateFilter {
  import opened Strings
  import opened Types
  import opened Calendar

  /** The fixed civil offset: UTC+9. */
  const JstOffsetHours: int := 9

  const MsPerSecond: int := 1000
  const MsPerMinute: int := 60 * MsPerSecond
  const MsPerHour: int := 60 * MsPerMinute
  const MsPerDay: int := 24 * MsPerHour

  function FormatError(paramName: ParamName): (e: DateValidationError)
    ensures e.error == INVALID_DATE_FORMAT && IsPrefix(paramName.Label(), e.message)
  {
    DateValidationError(INVALID_DATE_FORMAT, paramName.Label() + " パラメータは YYYY-MM-DD 形式で指定してください")
  }

  function ValueError(paramName: ParamName): (e: DateValidationError)
    ensures e.error == INVALID_DATE && IsPrefix(paramName.Label(), e.message)
  {
    DateValidationError(INVALID_DATE, paramName.Label() + " パラメータに無効な日付が指定されています")
  }

  lemma PrefixIsContained(p: string, s: string)
    requires IsPrefix(p, s)
    ensures Contains(s, p)
  {
    assert s[0..] == s;
  }

  /**
    * `validateDateFormat`: no error exactly for the YYYY-MM-DD shape, and then
    * the text is the canonical form of the date it denotes.
    */
  function ValidateDateFormat(date: string, paramName: ParamName): (r: Option<DateValidationError>)
    ensures r.None? <==> MatchesDatePattern(date)
    ensures r.None? ==> FormatDate(ParseDate(date)) == date
    ensures r.Some? ==> r.value.error == INVALID_DATE_FORMAT && Contains(r.value.message, paramName.Label())
  {
    if !MatchesDatePattern(date) then
      PrefixIsContained(paramName.Label(), FormatError(paramName).message);
      Some(FormatError(paramName))
    else
      FormatParse(date);
      None
  }

  /**
    * `validateDateValue` on a string of the YYYY-MM-DD shape: the JavaScript
    * Date round trip, which accepts exactly the existing Gregorian dates in
    * the years 0100-9999.
    */
  function ValidateDateValue(date: string, paramName: ParamName): (r: Option<DateValidationError>)
    requires MatchesDatePattern(date)
    ensures r.None? <==> ParseDate(date).year >= 100 && IsRealDate(ParseDate(date))
    ensures r.Some? ==> r.value.error == INVALID_DATE && Contains(r.value.message, paramName.Label())
  {
    var dt := ParseDate(date);
    JsDateRoundTripsIff(dt.year, dt.month, dt.day);
    if !JsDateRoundTrips(dt.year, dt.month, dt.day) then
      PrefixIsContained(paramName.Label(), ValueError(paramName).message);
      Some(ValueError(paramName))
    else
      None
  }

  /** JavaScript truthiness of an optional string: present and not empty. */
  predicate IsSet(p: Option<string>) { p.Some? && p.value != "" }

  /** One parameter: the format check first, the value check only when the format is right. */
  function ValidateParam(date: string, paramName: ParamName): (r: Option<DateValidationError>)
    ensures r.None? <==> IsValidDateString(date)
    ensures !MatchesDatePattern(date) ==> r == Some(FormatError(paramName))
    ensures MatchesDatePattern(date) && !IsValidDateString(date) ==> r == Some(ValueError(paramName))
  {
    if ValidateDateFormat(date, paramName).Some? then ValidateDateFormat(date, paramName)
    else ValidateDateValue(date, paramName)
  }

  /**
    * `validateDateRange`: `from` is checked before `to`, the first error
    * found is returned, and an absent or empty parameter is not checked.
    */
  function ValidateDateRange(params: DateRangeParams): (r: Option<DateValidationError>)
    ensures r.None? <==>
      (IsSet(params.from) ==> IsValidDateString(params.from.value)) &&
      (IsSet(params.to) ==> IsValidDateString(params.to.value))
    ensures IsSet(params.from) && !MatchesDatePattern(params.from.value) ==> r == Some(FormatError(From))
    ensures IsSet(params.from) && MatchesDatePattern(params.from.value) && !IsValidDateString(params.from.value)
      ==> r == Some(ValueError(From))
    ensures (IsSet(params.from) ==> IsValidDateString(params.from.value)) && IsSet(params.to) ==>
      r == ValidateParam(params.to.value, To)
  {
    if IsSet(params.from) && ValidateParam(params.from.value, From).Some? then
      ValidateParam(params.from.value, From)
    else if IsSet(params.to) then
      ValidateParam(params.to.value, To)
    else
      None
  }

  /** An absolute time: a UTC calendar date and the milliseconds elapsed in that day. */
  datatype Instant = Instant(date: Date, ms: int)

  predicate IsInstant(t: Instant) { IsRealDate(t.date) && 0 <= t.ms < MsPerDay }

  /** `new Date(t.getTime() - delta)` for a shift of at most one day. */
  function SubtractMs(t: Instant, delta: int): (r: Instant)
    requires IsInstant(t) && 0 <= delta <= MsPerDay
    ensures IsInstant(r)
    ensures r.date == t.date || NextDay(r.date) == t.date
    ensures (if r.date == t.date then t.ms - r.ms else t.ms + MsPerDay - r.ms) == delta
  {
    if t.ms >= delta then Instant(t.date, t.ms - delta)
    else Instant(PrevDay(t.date), t.ms + MsPerDay - delta)
  }

  /** HH:mm:ss.sss of a time of day. */
  function FormatTimeOfDay(ms: int): (s: string)
    requires 0 <= ms < MsPerDay
    ensures |s| == 12
  {
    PadDigits(ms / MsPerHour, 2) + (":" + (PadDigits(ms / MsPerMinute % 60, 2) + (":" +
      (PadDigits(ms / MsPerSecond % 60, 2) + ("." + PadDigits(ms % MsPerSecond, 3))))))
  }

  /** `toISOString()` of an instant in the years 0000-9999. */
  function FormatIso(t: Instant): (s: string)
    requires IsInstant(t) && 0 <= t.date.year < 10000
    ensures |s| == 24
  {
    FormatDate(t.date) + ("T" + (FormatTimeOfDay(t.ms) + "Z"))
  }

  /**
    * `toJstUtcTimestamp`: for `from`, 00:00:00.000 JST of the date; for `to`,
    * 23:59:59.999 JST; each shifted back nine hours to UTC and printed.
    * The start of a JST day is 15:00 UTC of the day before; its end is
    * 14:59:59.999 UTC of the same day.
    */
  function ToJstUtcTimestamp(date: string, kind: ParamName): (r: string)
    requires IsValidDateString(date)
    ensures kind == From ==> r == FormatDate(PrevDay(ParseDate(date))) + "T15:00:00.000Z"
    ensures kind == To ==> r == date + "T14:59:59.999Z"
  {
    var dt := ParseDate(date);
    var localMs := if kind == From then 0 else EndOfDayMs;
    var utc := SubtractMs(Instant(dt, localMs), JstOffsetHours * MsPerHour);
    if kind == From then
      StartBoundary(dt);
      FormatIso(utc)
    else
      EndBoundary(dt);
      FormatParse(date);
      FormatIso(utc)
  }

  /** 23:59:59.999, the last millisecond of a day. */
  const EndOfDayMs: int := 23 * MsPerHour + 59 * MsPerMinute + 59 * MsPerSecond + 999

  /** Midnight JST is 15:00 UTC of the day before. */
  lemma StartBoundary(dt: Date)
    requires IsRealDate(dt) && 100 <= dt.year < 10000
    ensures var utc := SubtractMs(Instant(dt, 0), JstOffsetHours * MsPerHour);
      utc == Instant(PrevDay(dt), 15 * MsPerHour) && 0 <= utc.date.year < 10000 &&
      FormatIso(utc) == FormatDate(PrevDay(dt)) + "T15:00:00.000Z"
  {
    var p := PrevDay(dt);
    assert InFormatRange(p); // the day before stays in the years 0099-9999
    StartTimeText();
    assert FormatIso(Instant(p, 15 * MsPerHour)) == FormatDate(p) + ("T" + ("15:00:00.000" + "Z"));
  }

  /** 23:59:59.999 JST is 14:59:59.999 UTC of the same day. */
  lemma EndBoundary(dt: Date)
    requires IsRealDate(dt) && 100 <= dt.year < 10000
    ensures var utc := SubtractMs(Instant(dt, EndOfDayMs), JstOffsetHours * MsPerHour);
      utc == Instant(dt, 14 * MsPerHour + 59 * MsPerMinute + 59 * MsPerSecond + 999) && 0 <= utc.date.year < 10000 &&
      FormatIso(utc) == FormatDate(dt) + "T14:59:59.999Z"
  {
    EndTimeText();
    assert FormatIso(Instant(dt, 14 * MsPerHour + 59 * MsPerMinute + 59 * MsPerSecond + 999))
      == FormatDate(dt) + ("T" + ("14:59:59.999" + "Z"));
  }

  lemma StartTimeText()
    ensures FormatTimeOfDay(15 * MsPerHour) == "15:00:00.000"
  {
    var ms := 15 * MsPerHour;
    StartTimeFields();
    StartTimeDigits();
    assert FormatTimeOfDay(ms) == PadDigits(15, 2) + (":" + (PadDigits(0, 2) + (":" + (PadDigits(0, 2) + ("." + PadDigits(0, 3))))));
  }

  lemma StartTimeFields()
    ensures var ms := 15 * MsPerHour;
      ms / MsPerHour == 15 && ms / MsPerMinute % 60 == 0 && ms / MsPerSecond % 60 == 0 && ms % MsPerSecond == 0
  {
    assert 15 * MsPerHour == 54000000;
  }

  lemma StartTimeDigits()
    ensures PadDigits(15, 2) == "15" && PadDigits(0, 2) == "00" && PadDigits(0, 3) == "000"
  {
  }

  lemma EndTimeText()
    ensures FormatTimeOfDay(14 * MsPerHour + 59 * MsPerMinute + 59 * MsPerSecond + 999) == "14:59:59.999"
  {
    var ms := 14 * MsPerHour + 59 * MsPerMinute + 59 * MsPerSecond + 999;
    EndTimeFields();
    EndTimeDigits();
    assert FormatTimeOfDay(ms) == PadDigits(14, 2) + (":" + (PadDigits(59, 2) + (":" + (PadDigits(59, 2) + ("." + PadDigits(999, 3))))));
  }

  lemma EndTimeFields()
    ensures var ms := 14 * MsPerHour + 59 * MsPerMinute + 59 * MsPerSecond + 999;
      ms / MsPerHour == 14 && ms / MsPerMinute % 60 == 59 && ms / MsPerSecond % 60 == 59 && ms % MsPerSecond == 999
  {
    assert 14 * MsPerHour + 59 * MsPerMinute + 59 * MsPerSecond + 999 == 53999999;
  }

  lemma EndTimeDigits()
    ensures PadDigits(14, 2) == "14" && PadDigits(59, 2) == "59" && PadDigits(999, 3) == "999"
  {
    assert PadDigits(9, 1) == "9" && PadDigits(99, 2) == "99";
  }

  /** The start boundary of a valid date sorts strictly before its end boundary. */
  lemma BoundariesOrdered(date: string)
    requires IsValidDateString(date)
    ensures LexLess(ToJstUtcTimestamp(date, From), ToJstUtcTimestamp(date, To))
  {
    var dt := ParseDate(date);
    FormatParse(date);
    FormatDateOrder(PrevDay(dt), dt);
    LexLessConcat(FormatDate(PrevDay(dt)), "T15:00:00.000Z", date, "T14:59:59.999Z");
  }

  /** The start boundary rolls back over a year end; the end boundary keeps the date. */
  lemma ToJstUtcTimestampExamples()
    ensures IsValidDateString("2026-01-01")
    ensures ToJstUtcTimestamp("2026-01-01", From) == "2025-12-31T15:00:00.000Z"
    ensures ToJstUtcTimestamp("2026-01-01", To) == "2026-01-01T14:59:59.999Z"
  {
    NewYearParses();
    assert PrevDay(Date(2026, 1, 1)) == Date(2025, 12, 31);
    NewYearEveFormats();
    NewYearEveStart(FormatDate(PrevDay(ParseDate("2026-01-01"))));
    NewYearEnd("2026-01-01");
  }

  // Proof helper: a literal concatenation, kept apart so the solver sees it alone.
  lemma NewYearEveStart(x: string)
    requires x == "2025-12-31"
    ensures x + "T15:00:00.000Z" == "2025-12-31T15:00:00.000Z"
  {
  }

  // Proof helper: a literal concatenation, kept apart so the solver sees it alone.
  lemma NewYearEnd(x: string)
    requires x == "2026-01-01"
    ensures x + "T14:59:59.999Z" == "2026-01-01T14:59:59.999Z"
  {
  }

  lemma NewYearParses()
    ensures MatchesDatePattern("2026-01-01") && ParseDate("2026-01-01") == Date(2026, 1, 1)
    ensures IsValidDateString("2026-01-01")
  {
    NewYearDigits();
    FormatDateLiteral(2026, 1, 1, "2026", "01", "01");
    NewYearText("2026", "01");
    ParseFormat(Date(2026, 1, 1));
  }

  // Proof helper: the padded fields of 2026-01-01.
  lemma NewYearDigits()
    ensures Pow10(4) == 10000 && PadDigits(2026, 4) == "2026" && PadDigits(1, 2) == "01"
  {
    assert Pow10(4) == 10000;
    assert PadDigits(2, 1) == "2";
    assert PadDigits(20, 2) == "20";
    assert PadDigits(202, 3) == "202";
  }

  // Proof helper: a literal concatenation, kept apart so the solver sees it alone.
  lemma NewYearText(ys: string, ms: string)
    requires ys == "2026" && ms == "01"
    ensures ys + ("-" + (ms + ("-" + ms))) == "2026-01-01"
  {
  }

  lemma NewYearEveFormats()
    ensures FormatDate(Date(2025, 12, 31)) == "2025-12-31"
  {
    NewYearEveDigits();
    FormatDateLiteral(2025, 12, 31, "2025", "12", "31");
    NewYearEveText("2025", "12", "31");
  }

  // Proof helper: the padded fields of 2025-12-31.
  lemma NewYearEveDigits()
    ensures Pow10(4) == 10000 && PadDigits(2025, 4) == "2025" && PadDigits(12, 2) == "12" && PadDigits(31, 2) == "31"
  {
    assert Pow10(4) == 10000;
    assert PadDigits(2, 1) == "2";
    assert PadDigits(20, 2) == "20";
    assert PadDigits(202, 3) == "202";
    assert PadDigits(1, 1) == "1" && PadDigits(3, 1) == "3";
  }

  // Proof helper: a literal concatenation, kept apart so the solver sees it alone.
  lemma NewYearEveText(ys: string, ms: string, ds: string)
    requires ys == "2025" && ms == "12" && ds == "31"
    ensures ys + ("-" + (ms + ("-" + ds))) == "2025-12-31"
  {
  }

  // Proof helper: FormatDate unfolded on given field texts.
  lemma FormatDateLiteral(y: nat, m: nat, d: nat, ys: string, ms: string, ds: string)
    requires y < 10000 && m < 100 && d < 100
    requires PadDigits(y, 4) == ys && PadDigits(m, 2) == ms && PadDigits(d, 2) == ds
    ensures FormatDate(Date(y, m, d)) == ys + ("-" + (ms + ("-" + ds)))
  {
  }

  /**
    * The callback of `responses.filter`: not before the lower bound, not
    * after the upper. A `submittedAt` that is missing or not text is
    * compared as a number with the boundary text, which converts to NaN, so
    * both comparisons are false and the record is kept.
    */
  predicate InRange(response: FeedbackResponse, fromTs: Option<string>, toTs: Option<string>)
  {
    match SubmittedAtText(response)
    case None => true
    case Some(at) =>
      && !(fromTs.Some? && LexLess(at, fromTs.value))
      && !(toTs.Some? && LexLess(toTs.value, at))
  }

  /** `Array.prototype.filter` with `InRange`. */
  function FilterResponses(responses: seq<FeedbackResponse>, fromTs: Option<string>, toTs: Option<string>)
    : (r: seq<FeedbackResponse>)
    ensures |r| <= |responses|
    ensures forall x :: x in r <==> x in responses && InRange(x, fromTs, toTs)
  {
    if responses == [] then []
    else
      var rest := FilterResponses(responses[1..], fromTs, toTs);
      if InRange(responses[0], fromTs, toTs) then [responses[0]] + rest else rest
  }

  /**
    * The inclusive boundaries as the filter is meant to apply them to a
    * text `submittedAt`; a record without one is never dropped.
    */
  predicate Selected(response: FeedbackResponse, params: DateRangeParams)
    requires IsSet(params.from) ==> IsValidDateString(params.from.value)
    requires IsSet(params.to) ==> IsValidDateString(params.to.value)
  {
    match SubmittedAtText(response)
    case None => true
    case Some(at) =>
      && (IsSet(params.from) ==> LexLessEq(ToJstUtcTimestamp(params.from.value, From), at))
      && (IsSet(params.to) ==> LexLessEq(at, ToJstUtcTimestamp(params.to.value, To)))
  }

  /**
    * `filterByDateRange`: the input itself when neither parameter is set;
    * otherwise exactly the records inside the inclusive boundaries.
    */
  function FilterByDateRange(responses: seq<FeedbackResponse>, params: DateRangeParams): (r: seq<FeedbackResponse>)
    requires IsSet(params.from) ==> IsValidDateString(params.from.value)
    requires IsSet(params.to) ==> IsValidDateString(params.to.value)
    ensures !IsSet(params.from) && !IsSet(params.to) ==> r == responses
    ensures |r| <= |responses|
    ensures forall x :: x in r <==> x in responses && Selected(x, params)
  {
    if !IsSet(params.from) && !IsSet(params.to) then responses
    else
      var fromTs := if IsSet(params.from) then Some(ToJstUtcTimestamp(params.from.value, From)) else None;
      var toTs := if IsSet(params.to) then Some(ToJstUtcTimestamp(params.to.value, To)) else None;
      var r := FilterResponses(responses, fromTs, toTs);
      assert forall x :: x in responses ==> (InRange(x, fromTs, toTs) <==> Selected(x, params)) by {
        forall x | x in responses ensures InRange(x, fromTs, toTs) <==> Selected(x, params) {
          if SubmittedAtText(x).Some? {
            var at := SubmittedAtText(x).value;
            if fromTs.Some? { NotLessIsLessEq(at, fromTs.value); }
            if toTs.Some? { NotLessIsLessEq(toTs.value, at); }
          }
        }
      }
      r
  }

  /** `a` is `b` with some elements left out, the rest in their original order. */
  predicate IsSubsequence<T(==)>(a: seq<T>, b: seq<T>)
  {
    a == [] || (b != [] && ((a[0] == b[0] && IsSubsequence(a[1..], b[1..])) || IsSubsequence(a, b[1..])))
  }

  lemma {:induction false} FilterResponsesStable(responses: seq<FeedbackResponse>, fromTs: Option<string>, toTs: Option<string>)
    ensures IsSubsequence(FilterResponses(responses, fromTs, toTs), responses)
    ensures forall x :: multiset(FilterResponses(responses, fromTs, toTs))[x] ==
                        (if x in responses && InRange(x, fromTs, toTs) then multiset(responses)[x] else 0)
  {
    if responses != [] {
      var rest := responses[1..];
      FilterResponsesStable(rest, fromTs, toTs);
      assert responses == [responses[0]] + rest;
      var r := FilterResponses(responses, fromTs, toTs);
      if InRange(responses[0], fromTs, toTs) {
        assert r[0] == responses[0] && r[1..] == FilterResponses(rest, fromTs, toTs);
      }
      var rr := FilterResponses(rest, fromTs, toTs);
      assert multiset(r) == if InRange(responses[0], fromTs, toTs) then multiset([responses[0]]) + multiset(rr) else multiset(rr);
      forall x ensures multiset(r)[x] == if x in responses && InRange(x, fromTs, toTs) then multiset(responses)[x] else 0 {
        assert multiset(responses)[x] == multiset([responses[0]])[x] + multiset(rest)[x];
        if x !in rest { assert multiset(rest)[x] == 0; }
      }
    }
  }

  /**
    * The filter is stable: the result is a subsequence of the input (order
    * kept) and holds every selected record exactly as often as the input does
    * and no other record.
    */
  lemma FilterByDateRangeStable(responses: seq<FeedbackResponse>, params: DateRangeParams)
    requires IsSet(params.from) ==> IsValidDateString(params.from.value)
    requires IsSet(params.to) ==> IsValidDateString(params.to.value)
    ensures IsSubsequence(FilterByDateRange(responses, params), responses)
    ensures forall x :: multiset(FilterByDateRange(responses, params))[x] ==
                        (if x in responses && Selected(x, params) then multiset(responses)[x] else 0)
  {
    if !IsSet(params.from) && !IsSet(params.to) {
      SubsequenceReflexive(responses);
      forall x | x !in responses ensures multiset(responses)[x] == 0 { }
    } else {
      var fromTs := if IsSet(params.from) then Some(ToJstUtcTimestamp(params.from.value, From)) else None;
      var toTs := if IsSet(params.to) then Some(ToJstUtcTimestamp(params.to.value, To)) else None;
      FilterResponsesStable(responses, fromTs, toTs);
      forall x | x in responses ensures InRange(x, fromTs, toTs) <==> Selected(x, params) {
        if SubmittedAtText(x).Some? {
          var at := SubmittedAtText(x).value;
          if fromTs.Some? { NotLessIsLessEq(at, fromTs.value); }
          if toTs.Some? { NotLessIsLessEq(toTs.value, at); }
        }
      }
    }
  }

  lemma {:induction false} SubsequenceReflexive<T>(s: seq<T>)
    ensures IsSubsequence(s, s)
  {
    if s != [] { SubsequenceReflexive(s[1..]); }
  }
}
