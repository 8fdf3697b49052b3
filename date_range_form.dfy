/**
  * The state of the date-range download form (the `useDateRangeForm` hook
  * in frontend/src/hooks/useDateRangeForm.ts): the two date texts, the
  * error stored for each, the error shown under the end date and whether
  * the form may be submitted. Each state setter of the hook is a method
  * that updates the fields in place; the memoised values are functions of
  * the fields.
  */
module UseDateRangeForm {
  import opened Types
  import opened Calendar
  import opened DateValidation

  const FromRequiredMessage: string := "開始日を入力してください"
  const ToRequiredMessage: string := "終了日を入力してください"
  const InvalidDateMessage: string := "有効な日付を入力してください"
  const RangeMessage: string := "終了日は開始日以降の日付を入力してください"

  /** `validateFrom`: required, then a valid date; no error exactly for a valid date. */
  function ValidateFrom(value: string): (r: Option<string>)
    ensures r.None? <==> IsValidDateString(value)
    ensures value == "" ==> r == Some(FromRequiredMessage)
    ensures value != "" && !IsValidDateString(value) ==> r == Some(InvalidDateMessage)
  {
    if value == "" then Some(FromRequiredMessage)
    else if !IsValidDate(value) then Some(InvalidDateMessage)
    else None
  }

  /**
    * `validateTo`: required, then a valid date, then, when the start date is
    * itself valid, not earlier than the start date.
    */
  function ValidateTo(value: string, fromValue: string): (r: Option<string>)
    ensures value == "" ==> r == Some(ToRequiredMessage)
    ensures value != "" && !IsValidDateString(value) ==> r == Some(InvalidDateMessage)
    ensures r == Some(RangeMessage) <==>
      IsValidDateString(value) && IsValidDateString(fromValue) && Before(ParseDate(value), ParseDate(fromValue))
    ensures r.None? <==>
      IsValidDateString(value) && !(IsValidDateString(fromValue) && Before(ParseDate(value), ParseDate(fromValue)))
  {
    if value == "" then Some(ToRequiredMessage)
    else if !IsValidDate(value) then Some(InvalidDateMessage)
    else if fromValue != "" && IsValidDate(fromValue) && IsStartAfterEnd(fromValue, value) then Some(RangeMessage)
    else None
  }

  class DateRangeForm {
    var fromDate: string
    var toDate: string
    var fromError: Option<string>
    var toError: Option<string>

    /**
      * Every stored error is absent or is what validation gives for the
      * current dates; an end-date error stored while the start date has no
      * error is the one validation gives for the current pair.
      */
    ghost predicate Valid()
      reads this
    {
      (fromError.None? || fromError == ValidateFrom(fromDate)) &&
      (fromError.None? ==> toError.None? || toError == ValidateTo(toDate, fromDate))
    }

    /**
      * The hook's initial state for the clock's date: from the first of the
      * month to today, no errors; with a four-digit year the form starts
      * out submittable.
      */
    constructor (year: int, month: int, day: int)
      requires IsRealDate(Date(year, month, day))
      ensures Valid()
      ensures fromDate == GetFirstDayOfCurrentMonth(year, month) && toDate == GetToday(year, month, day)
      ensures fromError == None && toError == None
      ensures 1000 <= year <= 9999 ==> IsValid()
    {
      fromDate := GetFirstDayOfCurrentMonth(year, month);
      toDate := GetToday(year, month, day);
      fromError := None;
      toError := None;
      new;
      if 1000 <= year <= 9999 {
        assert ParseDate(fromDate) == Date(year, month, 1);
        assert ParseDate(toDate) == Date(year, month, day);
      }
    }

    /**
      * `toErrorWithRangeCheck`, the error shown under the end date: the
      * stored error, or else the range message when both dates are valid
      * and the end date is earlier than the start date.
      */
    function ToErrorWithRangeCheck(): (r: Option<string>)
      reads this
      ensures toError.Some? ==> r == toError
      ensures toError.None? ==> (r.Some? <==>
        IsValidDateString(fromDate) && IsValidDateString(toDate) && Before(ParseDate(toDate), ParseDate(fromDate)))
      ensures r.Some? && toError.None? ==> r == Some(RangeMessage)
      ensures (Valid() && IsValidDateString(fromDate) && IsValidDateString(toDate) &&
        Before(ParseDate(toDate), ParseDate(fromDate))) ==> r == Some(RangeMessage)
    {
      if toError.Some? then toError
      else if IsValidDate(fromDate) && IsValidDate(toDate) && IsStartAfterEnd(fromDate, toDate) then Some(RangeMessage)
      else None
    }

    /** `isValid`: no errors, both dates valid and the range not reversed. */
    function IsValid(): (r: bool)
      reads this
      ensures r <==> (fromError.None? && ToErrorWithRangeCheck().None? &&
        IsValidDateString(fromDate) && IsValidDateString(toDate) && !Before(ParseDate(toDate), ParseDate(fromDate)))
      ensures r ==> toError.None?
    {
      fromError.None? && ToErrorWithRangeCheck().None? &&
      IsValidDate(fromDate) && IsValidDate(toDate) && !IsStartAfterEnd(fromDate, toDate)
    }

    /**
      * `setFromDate`: store the new start date and its error; a start date
      * without error clears the stored end-date error.
      */
    method SetFromDate(value: string)
      requires Valid()
      modifies this
      ensures Valid()
      ensures fromDate == value && fromError == ValidateFrom(value)
      ensures toDate == old(toDate)
      ensures toError == if fromError.None? then None else old(toError)
    {
      fromDate := value;
      var error := ValidateFrom(value);
      fromError := error;
      if error.None? {
        toError := None;
      }
    }

    /** `setToDate`: store the new end date and its error against the current start date. */
    method SetToDate(value: string)
      requires Valid()
      modifies this
      ensures Valid()
      ensures toDate == value && toError == ValidateTo(value, fromDate)
      ensures fromDate == old(fromDate) && fromError == old(fromError)
    {
      toDate := value;
      var error := ValidateTo(value, fromDate);
      toError := error;
    }

    /**
      * `validateAll`: recompute both errors from the current dates; the
      * answer is the submittability of the form before and after the call.
      */
    method ValidateAll() returns (ok: bool)
      requires Valid()
      modifies this
      ensures Valid()
      ensures fromDate == old(fromDate) && toDate == old(toDate)
      ensures fromError == ValidateFrom(fromDate) && toError == ValidateTo(toDate, fromDate)
      ensures ok <==> fromError.None? && toError.None?
      ensures ok == old(IsValid())
      ensures ok == IsValid()
    {
      var fromErr := ValidateFrom(fromDate);
      var toErr := ValidateTo(toDate, fromDate);
      fromError := fromErr;
      toError := toErr;
      ok := fromErr.None? && toErr.None?;
    }
  }
}
