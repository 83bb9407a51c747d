/** The BigQuery result shapes the parser reads and the scalar-type classes it tests. */
module Schema {
  import opened Wrappers

  /** A cell's `v`: BigQuery sends every scalar as a string, or `null`. */
  type Cell = Option<string>

  /** A row, given as its `f` array of cells in schema order. */
  type Row = seq<Cell>

  /** A schema field; `fields` holds the sub-fields of a `RECORD`. */
  datatype Field = Field(name: string, typeName: string, fields: seq<Field>)

  /** A query response: `schema.fields` and `rows`, where `rows` may be absent and a single
      row may be `null`. */
  datatype QueryResult = QueryResult(fields: seq<Field>, rows: Option<seq<Option<Row>>>)

  /** The `{text, value}` pair (`IResultFormat`) that the list helpers return. */
  datatype Item = Item(text: string, value: string)

  /** The six column types converted with `Number(...)`. */
  const NumericTypes: set<string> := {"INT64", "NUMERIC", "FLOAT64", "FLOAT", "INT", "INTEGER"}

  /** The column types accepted as the time column of a time series. */
  const TimeTypes: set<string> := {"DATE", "TIMESTAMP", "DATETIME"}

  const RecordType: string := "RECORD"

  /** A JavaScript number obtained from cell text. Floating-point parsing is not modelled, so
      `Number(v)` and `x * 1000` stay symbolic. */
  datatype JsNumber = Number(cell: Cell) | Times1000(n: JsNumber)

  /** `String(v)`: the text of a cell, and `"null"` for a null cell. */
  function JsString(c: Cell): (r: string)
    ensures c.Some? ==> r == c.value
    ensures c.None? ==> r == "null"
  {
    match c
    case Some(s) => s
    case None => "null"
  }

  /** Every row that is present has one cell per top-level field. */
  predicate RowsFit(fields: seq<Field>, rows: seq<Option<Row>>) {
    forall i :: 0 <= i < |rows| && rows[i].Some? ==> |rows[i].value| == |fields|
  }

  /** No row is `null`. */
  predicate AllPresent(rows: seq<Option<Row>>) {
    forall i :: 0 <= i < |rows| ==> rows[i].Some?
  }
}
