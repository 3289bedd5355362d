/** The database driver as the wrapper sees it: the values bound to placeholders,
    the rows and result packets it hands back, and the requests it is given.
    The driver itself (placeholder substitution, escaping, the wire protocol) is
    not part of this model; its answer to a request is an input. */
module Driver {
  import opened Wrappers

  /** A JavaScript value bound to a placeholder or read from a row. */
  datatype Value = Undefined | Null | Bool(b: bool) | Num(n: int) | Str(s: string)

  /** A result row: column names with their values, in the driver's column order. */
  type Row = seq<(string, Value)>

  /** `row[column]`: the value of the field named `column`, `undefined` if none. A row
      object holds each name once; should a row list a name twice, this takes the
      first, where the JavaScript object would keep the last. */
  function Field(row: Row, column: string): (v: Value)
    ensures v != Undefined ==> exists k :: 0 <= k < |row| && row[k] == (column, v)
  {
    if row == [] then Undefined
    else if row[0].0 == column then row[0].1
    else Field(row[1..], column)
  }

  datatype DriverError = DriverError(code: string, message: string)

  /** What the driver passes as its second completion argument: a row array for a
      reading statement, an OK packet for a writing one, or nothing on error. */
  datatype DriverResult =
    | Rows(rows: seq<Row>)
    | Packet(affectedRows: int, insertId: int, changedRows: int)
    | NoResult

  /** The driver's completion call `(err, res)`. */
  datatype Outcome = Outcome(err: Option<DriverError>, res: DriverResult)

  /** A statement and its bound values, as handed to `connection.query`. */
  datatype Request = Request(sql: string, values: seq<Value>)
}
