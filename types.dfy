/**
  * The value types shared by the backend: feedback records, the optional
  * date-range query parameters and the structured date validation error.
  */
module Types {

  datatype Option<T> = None | Some(value: T)

  /**
    * A field value of a stored record. Records are schema-less, so a field
    * holds text, a number (integers only in this model), a boolean, `null`,
    * or is present with the value `undefined`.
    */
  datatype Value = Str(s: string) | Num(n: int) | Bool(b: bool) | Null | Undefined

  /** A stored feedback record: field name to value, open-ended. */
  type FeedbackResponse = map<string, Value>

  /** Partition and sort keys of the store; never part of an export. */
  const PK: string := "PK"
  const SK: string := "SK"

  const ResponseIdKey: string := "responseId"
  const AppIdKey: string := "appId"
  const SubmittedAtKey: string := "submittedAt"

  /** The `submittedAt` field when it holds text; none when it is missing or holds another value. */
  function SubmittedAtText(r: FeedbackResponse): Option<string>
  {
    if SubmittedAtKey in r && r[SubmittedAtKey].Str? then Some(r[SubmittedAtKey].s) else None
  }

  /** The `from` / `to` query parameters; each may be missing. */
  datatype DateRangeParams = DateRangeParams(from: Option<string>, to: Option<string>)

  /** Which parameter a validation message is about. */
  datatype ParamName = From | To
  {
    function Label(): string
    {
      match this
      case From => "from"
      case To => "to"
    }
  }

  datatype ErrorCode = INVALID_DATE_FORMAT | INVALID_DATE

  datatype DateValidationError = DateValidationError(error: ErrorCode, message: string)
}
