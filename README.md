# webform-with-ai: date filtering, CSV export and the download form, in Dafny

This project models the logic behind the feedback-download feature of
webform-with-ai. The feature has five parts:

- **Date-range validation and filtering on the server** (`DateFilter`). A
  `from`/`to` pair of `YYYY-MM-DD` dates in Japan Standard Time (UTC+9) is
  validated. Each date becomes an inclusive ISO 8601 UTC boundary, and the
  stored records whose `submittedAt` lies between the boundaries are kept
  in input order. A record whose `submittedAt` is not text is always kept.
- **The CSV export** (`Csv`). The columns are `responseId`, `appId` and
  `submittedAt`, then every other key of any record in sorted order, never
  `PK` or `SK`. The document is a header row plus one row per record,
  joined by CRLF. Fields are escaped as section 2 of RFC 4180 requires, and
  a UTF-8 byte order mark goes in front of any non-empty document.
  `CsvReader` is a small RFC 4180 reader. It is the inverse the export is
  proved against: reading the document back gives the header and the cell
  texts.
- **The form's date helpers** (`DateValidation`): `isValidDate`,
  `isStartAfterEnd`, and the two helpers that format the clock's date. The
  clock's year, month and day are parameters here.
- **The form state hook** (`UseDateRangeForm`). The class `DateRangeForm`
  holds the four state cells of `useDateRangeForm`. Its setters are methods
  and its derived values are functions of the fields. The invariant `Valid`
  says that a stored error is absent or is what validation gives for the
  current dates. Under that invariant, `ValidateAll` answers exactly
  whether the form was submittable.
- **The application table and its lookup** (`AppsConfig`).

Shared pieces:

- `Types`: the record, parameter and error types.
- `Calendar`: Gregorian arithmetic, the effect of the JavaScript
  `new Date(y, m - 1, d)` constructor, and the `YYYY-MM-DD` text form.
- `Strings`: digits, zero padding, JavaScript's string order and joining.

Central results:

- A `YYYY-MM-DD` string passes the round trip through the JavaScript
  `Date` constructor exactly when it names an existing Gregorian date with
  a year of at least 100. The years 0-99 are read as 1900-1999, so they
  always fail.
- On `YYYY-MM-DD` strings, text order is chronological order.
- The form's `isValidDate` agrees with the server's two checks.
- The date filter is a stable selection of exactly the records inside the
  inclusive boundaries.
- `toISOString` text sorts as the instants it prints (`JstWindow`). So when
  every `submittedAt` was written by `toISOString`, the filter keeps exactly
  the records submitted on a calendar date in Japan from the start date
  through the end date.
- The CSV header has no duplicates. Its dynamic part is the unique sorted
  listing of the dynamic keys, and the document reads back as header plus
  cell rows.

## Model

| member | source | states |
|---|---|---|
| DateFilter.FormatError | backend/src/lib/date-filter.ts:19-22 | the format error has code INVALID_DATE_FORMAT and its message starts with the parameter name |
| DateFilter.ValueError | backend/src/lib/date-filter.ts:45-48 | the value error has code INVALID_DATE and its message starts with the parameter name |
| DateFilter.ValidateDateFormat | backend/src/lib/date-filter.ts:14-25 | no error exactly when the text is four digits, dash, two digits, dash, two digits; then it is the canonical text of its date; otherwise INVALID_DATE_FORMAT with a message containing the parameter name |
| Calendar.JsLocalDate | backend/src/lib/date-filter.ts:38 | `new Date(y, m - 1, d)` always lands on an existing date: years 0-99 read as 1900-1999, the month carried into the year, the day counted from the first of the month |
| Calendar.JsDateRoundTrips | backend/src/lib/date-filter.ts:38-44 | the existence check: the constructed date gives back the same year, month index and day; characterised by `Calendar.JsDateRoundTripsIff` |
| Calendar.JsDateRoundTripsIff | backend/src/lib/date-filter.ts:37-44 | building `new Date(y, m - 1, d)` and reading year, month and day back gives the inputs exactly when y is outside 0-99 and (y, m, d) is an existing Gregorian date |
| Calendar.FormatParse | backend/src/lib/date-filter.ts:37 | the numbers split from a `YYYY-MM-DD` text, padded back, give the same text |
| Calendar.ParseFormat | backend/src/lib/date-filter.ts:37 | splitting the padded text of a date gives the date back |
| DateFilter.ValidateDateValue | backend/src/lib/date-filter.ts:33-51 | on a `YYYY-MM-DD` text: no error exactly for an existing Gregorian date in the years 0100-9999; otherwise INVALID_DATE naming the parameter |
| DateFilter.ValidateParam | backend/src/lib/date-filter.ts:59-65 | one parameter is checked for format first and for value second; no error exactly for a valid date string |
| DateFilter.ValidateDateRange | backend/src/lib/date-filter.ts:58-76 | no error exactly when every set (present, non-empty) parameter is a valid date; `from` errors come first, format before value; otherwise the `to` result |
| DateFilter.SubtractMs | backend/src/lib/date-filter.ts:93 | shifting an instant back by at most a day gives an instant exactly `delta` milliseconds earlier: on the same date, or on the day before |
| DateFilter.FormatTimeOfDay | backend/src/lib/date-filter.ts:94 | the `HH:mm:ss.sss` part of `toISOString` is twelve characters; its order is proved by `JstWindow.FormatTimeOrder` |
| DateFilter.FormatIso | backend/src/lib/date-filter.ts:94 | `toISOString` of an instant in the years 0000-9999 is twenty-four characters; its order is proved by `JstWindow.FormatIsoOrder` |
| DateFilter.ToJstUtcTimestamp | backend/src/lib/date-filter.ts:87-102 | `from` gives the previous calendar day followed by `T15:00:00.000Z`; `to` gives the date followed by `T14:59:59.999Z` |
| DateFilter.ToJstUtcTimestampExamples | backend/src/lib/date-filter.ts:90-101 | `2026-01-01` gives `2025-12-31T15:00:00.000Z` and `2026-01-01T14:59:59.999Z` |
| DateFilter.BoundariesOrdered | backend/src/lib/date-filter.ts:87-102 | the start boundary of a valid date sorts strictly before its end boundary |
| DateFilter.InRange | backend/src/lib/date-filter.ts:123-135 | the filter callback: a text `submittedAt` is neither below the lower nor above the upper boundary; a missing or non-text one is kept, because both comparisons with NaN are false |
| DateFilter.FilterResponses | backend/src/lib/date-filter.ts:123-135 | the filter keeps exactly the records accepted by the callback and is never longer than its input |
| DateFilter.FilterByDateRange | backend/src/lib/date-filter.ts:112-135 | with neither parameter set, the input itself; otherwise exactly the records with start boundary <= submittedAt <= end boundary as strings, both ends inclusive, plus those without a text submittedAt |
| DateFilter.FilterByDateRangeStable | backend/src/lib/date-filter.ts:112-135 | the result is a subsequence of the input (order kept) with every selected record as often as in the input and nothing else |
| JstWindow.FormatTimeOrder | backend/src/lib/date-filter.ts:94 | on the `HH:mm:ss.sss` text of two times of day, string order is exactly numeric order of the times |
| JstWindow.FormatIsoOrder | backend/src/lib/date-filter.ts:94 | `toISOString` text of two instants compares as strings exactly as the instants compare in time |
| JstWindow.StartBoundaryWindow | backend/src/lib/date-filter.ts:90-95 | an instant's text is at or after the start boundary of a date exactly when its calendar date in Japan is that date or later |
| JstWindow.EndBoundaryWindow | backend/src/lib/date-filter.ts:97-101 | an instant's text is at or before the end boundary of a date exactly when its calendar date in Japan is that date or earlier |
| JstWindow.SelectedIffJstDateInRange | backend/src/lib/date-filter.ts:104-135 | a record whose submittedAt is `toISOString` of an instant passes the filter callback exactly when the Japanese date of that instant lies in the requested range |
| JstWindow.FilterKeepsJstRange | backend/src/lib/date-filter.ts:104-135 | the filter keeps exactly the records submitted on a Japanese calendar date from the start date through the end date, both inclusive |
| Csv.DynamicKeys | backend/src/lib/csv.ts:25-32 | a key is a dynamic column exactly when some record has it and it is neither a fixed column nor PK/SK, whatever its value |
| Csv.CollectDynamicColumns | backend/src/lib/csv.ts:25-32 | the nested loop over records and keys collects exactly the dynamic keys |
| Csv.SortStrings | backend/src/lib/csv.ts:35 | the sorted listing of a set has its size, its members, and is strictly increasing in the UTF-16 code-unit order of the default `sort()` |
| Csv.StrictlySortedUnique | backend/src/lib/csv.ts:35 | two strictly sorted sequences with the same members are equal, so the sorted column order is unique |
| Csv.ColumnsLayout | backend/src/lib/csv.ts:8-35 | the columns start with responseId, appId, submittedAt; the rest is sorted and holds exactly the dynamic keys |
| Csv.ColumnsDistinct | backend/src/lib/csv.ts:25-35 | the column list has no duplicates and contains neither PK nor SK |
| Csv.CellTexts | backend/src/lib/csv.ts:38-41 | one cell per column; a string is written as is; `null`, `undefined` and a missing key that is not the name of an `Object.prototype` member give an empty cell; a missing key that is such a name gives the inherited member's text |
| Csv.ValueText | backend/src/lib/csv.ts:38-41 | the text papaparse writes for a value: the string itself, `String(n)` for a number, `true`/`false`, and nothing for `null` and `undefined` |
| Csv.Cell | backend/src/lib/csv.ts:38-41 | the value a plain property read finds in a column: the record's own value, else the member inherited from `Object.prototype` under that name, else `undefined` |
| Csv.InheritedCellExample | backend/src/lib/csv.ts:38-41 | a record without a `constructor` key shows `function Object() { [native code] }` in a `constructor` column that another record brought in |
| Csv.EscapeText | backend/src/lib/csv.ts:38-41 | a field without comma, double quote or line break is written as is; otherwise it is enclosed in double quotes |
| Csv.ReadEscapedField | backend/src/lib/csv.ts:38-41 | reading an escaped field (inner quotes doubled) gives the original text back |
| Csv.ReadRenderedRow | backend/src/lib/csv.ts:38-41 | reading a row of escaped fields joined by commas gives the cells back |
| Csv.RenderRow | backend/src/lib/csv.ts:38-41 | one line: the escaped fields joined by commas; read back by `Csv.ReadRenderedRow` |
| Csv.CsvDocument | backend/src/lib/csv.ts:38-43 | the byte order mark and the CRLF-joined lines of the header and the cell rows, or `""` for no records; read back by `Csv.TableReadsBack` |
| Csv.TableReadsBack | backend/src/lib/csv.ts:38-41 | reading the CRLF-joined rows gives the header followed by one row of cell texts per record, with no extra record and no text left unread |
| Csv.GenerateCsv | backend/src/lib/csv.ts:19-44 | no records give `""`; otherwise the byte order mark followed by a document that reads back as the header and the cell rows |
| DateValidation.IsValidDate | frontend/src/utils/date-validation.ts:12-25 | false for any text without the `YYYY-MM-DD` shape; true exactly for an existing Gregorian date in the years 0100-9999 |
| DateValidation.IsValidDateAgreesWithServer | frontend/src/utils/date-validation.ts:12-25 | the form accepts a date exactly when the server's format and value checks both pass |
| DateValidation.GetFirstDayOfCurrentMonth | frontend/src/utils/date-validation.ts:31-36 | for a four-digit year the text is a valid date string naming the first of the clock's month |
| DateValidation.GetToday | frontend/src/utils/date-validation.ts:42-48 | for a four-digit year the text is a valid date string naming the clock's date |
| DateValidation.ClockDateText | frontend/src/utils/date-validation.ts:42-48 | the year, padded month and padded day joined by dashes form the canonical text of that date |
| DateValidation.IsStartAfterEnd | frontend/src/utils/date-validation.ts:56-58 | on two `YYYY-MM-DD` texts, the start sorts after the end exactly when the end date is chronologically earlier |
| DateValidation.IsStartAfterEndStrict | frontend/src/utils/date-validation.ts:56-58 | no date is after itself, and two dates are never each after the other |
| Strings.LexLess | backend/src/lib/date-filter.ts:126-130 | JavaScript's `<` on strings; equal to the code-unit order by `Strings.CodeUnitOrder` |
| Strings.CodeUnitOrder | backend/src/lib/csv.ts:35 | the string order used for `<` and `sort()` is exactly the lexicographic order of the UTF-16 code units |
| Strings.SurrogateOrderExample | backend/src/lib/csv.ts:35 | U+1F600 (encoded D83D DE00) sorts before U+FF01 although its code point is larger |
| Strings.PadStart | frontend/src/utils/date-validation.ts:34 | `padStart(w, fill)`: the text ends with the original, is at least `w` long, and everything before the original is the fill character |
| Strings.IntToString | frontend/src/utils/date-validation.ts:33-35 | `String(n)`: the decimal digits of a non-negative integer, a minus sign before the digits of a negative one |
| Strings.NatToStringShortest | frontend/src/utils/date-validation.ts:34 | `String(n)` of a natural number has no leading zero: it is `0` itself or starts with a nonzero digit |
| Strings.IntToStringShortest | frontend/src/utils/date-validation.ts:33 | `String(n)` of an integer has no leading zero after the optional minus sign, so with the digit value it is the shortest decimal form |
| Calendar.PatternOrderIsChronological | frontend/src/utils/date-validation.ts:56-58 | two `YYYY-MM-DD` texts compare as strings exactly as their dates compare in time |
| UseDateRangeForm.ValidateFrom | frontend/src/hooks/useDateRangeForm.ts:30-38 | the required message for an empty value, the invalid-date message for an invalid one, no error exactly for a valid date |
| UseDateRangeForm.ValidateTo | frontend/src/hooks/useDateRangeForm.ts:40-51 | required, then invalid-date, then the range message exactly when both dates are valid and the end is earlier than the start; no error otherwise |
| UseDateRangeForm.DateRangeForm.constructor | frontend/src/hooks/useDateRangeForm.ts:24-28 | starts from the first of the month to today with no errors; for a four-digit year the form starts submittable |
| UseDateRangeForm.DateRangeForm.ToErrorWithRangeCheck | frontend/src/hooks/useDateRangeForm.ts:71-78 | the stored end-date error when there is one; else the range message exactly when both dates are valid and reversed; in a valid state a reversed valid pair always shows the range message |
| UseDateRangeForm.DateRangeForm.IsValid | frontend/src/hooks/useDateRangeForm.ts:80-88 | submittable exactly when no error is shown, both dates are valid and the start is not after the end |
| UseDateRangeForm.DateRangeForm.SetFromDate | frontend/src/hooks/useDateRangeForm.ts:53-62 | stores the start date and its error, clears the end-date error only when the start has none, keeps the end date, keeps the invariant |
| UseDateRangeForm.DateRangeForm.SetToDate | frontend/src/hooks/useDateRangeForm.ts:64-68 | stores the end date and its error against the current start date, keeps the start date, its error and the invariant |
| UseDateRangeForm.DateRangeForm.ValidateAll | frontend/src/hooks/useDateRangeForm.ts:90-96 | recomputes and stores both errors; the answer is true exactly when both are absent, which is whether the form was and is submittable |
| AppsConfig.FindApp | frontend/src/lib/apps-config.ts:31-33 | the first table entry with the id; none exactly when no entry has it |
| AppsConfig.GetAppConfig | frontend/src/lib/apps-config.ts:31-33 | a found configuration is a registered one with that id; none exactly when no registered application has the id |
| AppsConfig.AppIdsDistinct | frontend/src/lib/apps-config.ts:14-25 | no two registered applications share an id |
| AppsConfig.GetAppConfigFindsRegistered | frontend/src/lib/apps-config.ts:14-33 | looking up a registered application's id gives that application |
| AppsConfig.GetAppConfigExamples | frontend/src/lib/apps-config.ts:14-33 | `app1` and `app2` resolve to their entries, `invalid-app` to nothing |

## Left out

- The server's request handlers, the DynamoDB access layer, the browser
  components, internationalisation, the API client and the infrastructure
  code are not part of this model. They are I/O and wiring around the
  logic above.
- DateFilter.ValidateDateValue: only texts of the `YYYY-MM-DD` shape are
  modelled, which is what its callers pass after the format check.
  `Number()` of arbitrary text (NaN and its comparisons) is not modelled.
- DateFilter.ToJstUtcTimestamp: the date must be a valid date string.
  Two cases are not modelled: how `Date.UTC` rolls over an impossible date
  such as `2026-02-30`, and the `RangeError` that `toISOString` throws on
  an unparsable date. `filterByDateRange` passes its parameters to this
  function without validating them, so the model requires what
  `validateDateRange` accepts.
- DateFilter.FilterByDateRange: it has the same requirement on every set
  parameter. A record's `submittedAt` is text, an integer, a boolean,
  `null`, `undefined` or missing. Arrays and objects, which JavaScript
  would turn into text before comparing, are not modelled.
- JstWindow.FilterKeepsJstRange: it speaks about records whose
  `submittedAt` is the `toISOString` text of an instant in the years
  0000-9999. For other text, only the string comparison in
  `DateFilter.FilterByDateRange` describes the filter.
- Strings.LexLess: a Dafny string holds Unicode scalar values, so a
  JavaScript string with an unpaired surrogate has no counterpart here.
- Csv.EscapeText: papaparse also quotes some fields that section 2 of
  RFC 4180 does not require. These are fields with leading or trailing
  spaces and fields holding a byte order mark. That extra quoting is not
  modelled.
- Csv.GenerateCsv: every record must have at least one key. papaparse
  writes a record with no keys at all as an empty line without commas,
  and such a record is not modelled.
- Csv.CellTexts: numbers are integers of magnitude below 10^21, written
  as `String(n)` writes them. From 10^21 on, JavaScript writes exponent
  form (`1e+21`), and such numbers have already lost integer precision;
  they are not modelled. Fractional numbers, dates and nested objects are
  not modelled either.
- Csv.Cell: the text written for an inherited `Object.prototype` member
  is the one V8 (Node.js) gives, such as
  `function hasOwnProperty() { [native code] }`; the text of a built-in
  function is left to the engine, and other engines are not modelled.
- Calendar.JsLocalDate: the local time zone of the `Date` constructor is
  not modelled. The model assumes a time zone that skips no calendar day.
  In a zone that skipped a day, such as Pacific/Apia, where 2011-12-30 did
  not exist, the source rejects that date and the model accepts it.
- DateValidation.GetFirstDayOfCurrentMonth and DateValidation.GetToday:
  the clock reading `new Date()` is replaced by the year, month and day
  parameters. With a year outside 1000-9999 the text is not claimed to be
  valid, because `String(year)` then has fewer or more than four digits.
- UseDateRangeForm.DateRangeForm: React's scheduling is not modelled. This
  covers batched state updates, re-renders, and the memoisation by
  `useCallback`/`useMemo`. Each method models the state after the component
  has re-rendered, so `SetToDate` sees the start date of the last render.
