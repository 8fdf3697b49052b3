/**
  * Date helpers of the download form (frontend/src/utils/date-validation.ts).
  * The two helpers that read the clock take the clock's year, month and
  * day as parameters instead.
  */
module DateValidation {
  import opened Strings
  import opened Types
  import opened Calendar
  import DateFilter

  /**
    * `isValidDate`: the YYYY-MM-DD shape, then the Date round trip; true
    * exactly for the existing Gregorian dates in the years 0100-9999.
    */
  function IsValidDate(dateString: string): (r: bool)
    ensures r <==> IsValidDateString(dateString)
    ensures !MatchesDatePattern(dateString) ==> !r
  {
    if !MatchesDatePattern(dateString) then false
    else
      var dt := ParseDate(dateString);
      JsDateRoundTripsIff(dt.year, dt.month, dt.day);
      JsDateRoundTrips(dt.year, dt.month, dt.day)
  }

  /** The form accepts a date exactly when the server's format and value checks both pass. */
  lemma IsValidDateAgreesWithServer(s: string, paramName: ParamName)
    ensures IsValidDate(s) <==>
      DateFilter.ValidateDateFormat(s, paramName).None? && DateFilter.ValidateDateValue(s, paramName).None?
  {
  }

  /**
    * `getFirstDayOfCurrentMonth` for the clock's year and month: the year as
    * `String` prints it, the month padded to two digits, and day 01.
    */
  function GetFirstDayOfCurrentMonth(year: int, month: int): (r: string)
    requires 1 <= month <= 12
    ensures 1000 <= year <= 9999 ==> IsValidDate(r) && ParseDate(r) == Date(year, month, 1)
  {
    var r := IntToString(year) + "-" + PadStart(NatToString(month), 2, '0') + "-01";
    if 1000 <= year <= 9999 then
      FirstDayPadded();
      ClockDateText(year, month, 1);
      assert r == IntToString(year) + "-" + PadStart(NatToString(month), 2, '0') + "-" + PadStart(NatToString(1), 2, '0');
      ClockDateValid(Date(year, month, 1));
      r
    else r
  }

  /**
    * `getToday` for the clock's date: year, padded month and padded day.
    */
  function GetToday(year: int, month: int, day: int): (r: string)
    requires IsRealDate(Date(year, month, day))
    ensures 1000 <= year <= 9999 ==> IsValidDate(r) && ParseDate(r) == Date(year, month, day)
  {
    var r := IntToString(year) + "-" + PadStart(NatToString(month), 2, '0') + "-" + PadStart(NatToString(day), 2, '0');
    if 1000 <= year <= 9999 then
      ClockDateText(year, month, day);
      ClockDateValid(Date(year, month, day));
      r
    else r
  }

  /** For a four-digit year the clock text is the canonical form of the date. */
  lemma ClockDateText(year: int, month: int, day: int)
    requires 1000 <= year <= 9999 && 1 <= month <= 12 && 1 <= day <= 31
    ensures IntToString(year) + "-" + PadStart(NatToString(month), 2, '0') + "-" + PadStart(NatToString(day), 2, '0')
      == FormatDate(Date(year, month, day))
  {
    FourDigitYearText(year);
    PadStartTwoDigits(month);
    PadStartTwoDigits(day);
    DashJoinedDate(Date(year, month, day), IntToString(year), PadStart(NatToString(month), 2, '0'), PadStart(NatToString(day), 2, '0'));
  }

  /** The padded parts joined by dashes form the canonical text. */
  lemma DashJoinedDate(dt: Date, ys: string, ms: string, ds: string)
    requires InFormatRange(dt)
    requires ys == PadDigits(dt.year, 4) && ms == PadDigits(dt.month, 2) && ds == PadDigits(dt.day, 2)
    ensures ys + "-" + ms + "-" + ds == FormatDate(dt)
  {
    DashAssociative(ys, ms, ds);
  }

  // Proof helper: regrouping a concatenation, kept apart so the solver sees it alone.
  lemma DashAssociative(a: string, b: string, c: string)
    ensures a + "-" + b + "-" + c == a + ("-" + (b + ("-" + c)))
  {
  }

  /** `String(year)` of a four-digit year is its four-digit padding. */
  lemma FourDigitYearText(year: int)
    requires 1000 <= year <= 9999
    ensures IntToString(year) == PadDigits(year, 4)
  {
    assert Pow10(3) == 1000 && Pow10(4) == 10000;
    NatToStringWidth(year, 4);
  }

  /** The canonical form of an existing date with a four-digit year is a valid date string. */
  lemma ClockDateValid(dt: Date)
    requires 1000 <= dt.year <= 9999 && IsRealDate(dt)
    ensures IsValidDate(FormatDate(dt)) && ParseDate(FormatDate(dt)) == dt
  {
    ParseFormat(dt);
  }

  lemma FirstDayPadded()
    ensures PadStart(NatToString(1), 2, '0') == "01"
  {
    assert NatToString(1) == "1";
  }

  /** `isStartAfterEnd`: the start string sorts after the end string. */
  function IsStartAfterEnd(start: string, end: string): (r: bool)
    ensures MatchesDatePattern(start) && MatchesDatePattern(end) ==>
      (r <==> Before(ParseDate(end), ParseDate(start)))
  {
    if MatchesDatePattern(start) && MatchesDatePattern(end) then
      PatternOrderIsChronological(end, start);
      LexLess(end, start)
    else
      LexLess(end, start)
  }

  /** No date is after itself, and two dates cannot each be after the other. */
  lemma IsStartAfterEndStrict(a: string, b: string)
    ensures !IsStartAfterEnd(a, a)
    ensures IsStartAfterEnd(a, b) ==> !IsStartAfterEnd(b, a)
  {
    LexLessIrreflexive(a);
    if LexLess(b, a) { LexLessAsymmetric(b, a); }
  }
}
