/**
  * A reader for the comma-separated format of section 2 of RFC 4180: a
  * document is records separated by CRLF, a record is fields separated by
  * commas, and a field is either plain text or enclosed in double quotes
  * with every inner double quote written twice. It is the reference the
  * export is checked against: reading back what the export writes gives
  * the header and the cell texts.
  */
module CsvReader {

  const Quote: char := '"'

  /** A plain field: everything up to the next comma, carriage return or the end. */
  function ReadPlain(s: string): (r: (string, string))
    ensures |r.1| <= |s|
  {
    if s == [] || s[0] == ',' || s[0] == '\r' then ([], s)
    else
      var (f, rest) := ReadPlain(s[1..]);
      ([s[0]] + f, rest)
  }

  /**
    * The inside of a quoted field, after its opening quote: a doubled quote
    * stands for one quote, a single quote closes the field.
    */
  function ReadQuoted(s: string, acc: string): (r: (string, string))
    ensures |r.1| <= |s|
  {
    if s == [] then (acc, [])
    else if s[0] == Quote then
      if |s| > 1 && s[1] == Quote then ReadQuoted(s[2..], acc + [Quote])
      else (acc, s[1..])
    else ReadQuoted(s[1..], acc + [s[0]])
  }

  /** One field from the front of `s`: its text and what follows it. */
  function ReadField(s: string): (r: (string, string))
    ensures |r.1| <= |s|
  {
    if s != [] && s[0] == Quote then ReadQuoted(s[1..], []) else ReadPlain(s)
  }

  /** The fields of one record and what follows the record. */
  function ReadRecord(s: string): (r: (seq<string>, string))
    ensures |r.0| >= 1 && |r.1| <= |s|
    decreases |s|
  {
    var (f, rest) := ReadField(s);
    if rest != [] && rest[0] == ',' then
      var (fs, after) := ReadRecord(rest[1..]);
      ([f] + fs, after)
    else ([f], rest)
  }

  /**
    * All records of a document and the text left unread: reading stops at
    * anything that is not a CRLF separator, so a whole document leaves nothing.
    */
  function ReadDocument(s: string): (r: (seq<seq<string>>, string))
    ensures |r.0| >= 1 && |r.1| <= |s|
    decreases |s|
  {
    var (rec, rest) := ReadRecord(s);
    if |rest| >= 2 && rest[..2] == "\r\n" then
      var (recs, after) := ReadDocument(rest[2..]);
      ([rec] + recs, after)
    else ([rec], rest)
  }
}
