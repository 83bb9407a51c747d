/** The table and variable formats: `_toTable` with `_convertValues`, and `_toVar`. */
module TableFormat {
  import opened Wrappers
  import opened Schema

  /** A table cell as handed to the panel. `new Date(ms).toString()` depends on the time zone
      and locale, so the date text stays symbolic in the instant it renders. */
  datatype TableValue = Text(s: string) | Numeric(n: JsNumber) | DateText(millis: JsNumber)

  /** A column `{text, type}` of the table. */
  datatype Column = Column(text: string, typeName: string)

  /** The table format `{columns, rows, type: 'table'}`. */
  datatype Table = Table(columns: seq<Column>, rows: seq<seq<TableValue>>)

  /** A `{text}` entry of the variable format; the text is the raw cell, possibly null. */
  datatype VarItem = VarItem(text: Cell)

  /** `_convertValues`: numeric types become numbers, `TIMESTAMP` (epoch seconds) becomes a
      date text for the instant in milliseconds, and every other type is passed through. */
  function ConvertValue(value: string, typeName: string): (r: TableValue)
    ensures r.Numeric? <==> typeName in NumericTypes
    ensures r.DateText? <==> typeName == "TIMESTAMP"
    ensures r.Numeric? ==> r.n == Number(Some(value))
    ensures r.DateText? ==> r.millis == Times1000(Number(Some(value)))
    ensures r.Text? ==> r.s == value
  {
    if typeName in NumericTypes then Numeric(Number(Some(value)))
    else if typeName == "TIMESTAMP" then DateText(Times1000(Number(Some(value))))
    else Text(value)
  }

  /** A cell JavaScript treats as false: null or the empty string. */
  predicate Falsy(cell: Cell) {
    cell.None? || cell.value == ""
  }

  /** `_toTable` walks the row's own cells and reads `columns[i].type` only for a truthy cell,
      so a present row may run past the schema as long as every cell there is falsy. */
  predicate RowsWithin(fields: seq<Field>, rows: seq<Option<Row>>) {
    forall i, j :: 0 <= i < |rows| && rows[i].Some? && |fields| <= j < |rows[i].value| ==> Falsy(rows[i].value[j])
  }

  /** A falsy cell is shown as `''`; any other is converted by the type of its column. */
  function ConvertCell(fields: seq<Field>, cells: Row, j: nat): TableValue
    requires j < |cells| && (j >= |fields| ==> Falsy(cells[j]))
  {
    if Falsy(cells[j]) then Text("") else ConvertValue(cells[j].value, fields[j].typeName)
  }

  /** One output row: `each` over a null row visits nothing, so it yields an empty row. */
  function TableRow(fields: seq<Field>, row: Option<Row>): seq<TableValue>
    requires row.Some? ==> forall j :: |fields| <= j < |row.value| ==> Falsy(row.value[j])
  {
    match row
    case None => []
    case Some(cells) =>
      seq(|cells|, j requires 0 <= j < |cells| => ConvertCell(fields, cells, j))
  }

  /** `_toTable`: the schema's (name, type) pairs as columns, and one output row per input row
      with one entry per cell (a row shorter than the schema gives a shorter output row, a
      longer one gives `''` past the schema), converted by the type of the cell's column. */
  function ToTable(fields: seq<Field>, rows: seq<Option<Row>>): (r: Table)
    requires RowsWithin(fields, rows)
    ensures |r.columns| == |fields|
    ensures forall j :: 0 <= j < |fields| ==> r.columns[j] == Column(fields[j].name, fields[j].typeName)
    ensures |r.rows| == |rows|
    ensures forall i :: 0 <= i < |rows| && rows[i].None? ==> r.rows[i] == []
    ensures forall i :: 0 <= i < |rows| && rows[i].Some? ==>
      && |r.rows[i]| == |rows[i].value|
      && forall j :: 0 <= j < |rows[i].value| ==>
           var cell := rows[i].value[j];
           && (cell.None? || cell.value == "" ==> r.rows[i][j] == Text(""))
           && (cell.Some? && cell.value != "" ==> r.rows[i][j] == ConvertValue(cell.value, fields[j].typeName))
    ensures forall i, j ::
      (0 <= i < |rows| && rows[i].Some? && 0 <= j < |rows[i].value| && j < |fields|
       && fields[j].typeName !in NumericTypes && fields[j].typeName != "TIMESTAMP") ==>
      r.rows[i][j] == Text(if rows[i].value[j].Some? then rows[i].value[j].value else "")
  {
    Table(
      seq(|fields|, j requires 0 <= j < |fields| => Column(fields[j].name, fields[j].typeName)),
      seq(|rows|, i requires 0 <= i < |rows| => TableRow(fields, rows[i])))
  }

  /** `_toVar`: the first cell of every row, unconverted, as `{text}`, in row order. */
  function ToVar(rows: seq<Option<Row>>): (r: seq<VarItem>)
    requires forall i :: 0 <= i < |rows| ==> rows[i].Some? && |rows[i].value| > 0
    ensures |r| == |rows|
    ensures forall i :: 0 <= i < |rows| ==> r[i].text == rows[i].value[0]
  {
    seq(|rows|, i requires 0 <= i < |rows| => VarItem(rows[i].value[0]))
  }

  /** The variable format lists the first column of the table format: where that column is
      passed through unconverted, each row's first table cell is the text of its variable
      entry, or `''` for a null cell. */
  lemma VarIsFirstTableColumn(fields: seq<Field>, rows: seq<Option<Row>>)
    requires RowsWithin(fields, rows) && |fields| > 0
    requires forall i :: 0 <= i < |rows| ==> rows[i].Some? && |rows[i].value| > 0
    requires fields[0].typeName !in NumericTypes && fields[0].typeName != "TIMESTAMP"
    ensures |ToVar(rows)| == |ToTable(fields, rows).rows|
    ensures forall i :: 0 <= i < |rows| ==>
      ToTable(fields, rows).rows[i][0] == Text(if ToVar(rows)[i].text.Some? then ToVar(rows)[i].text.value else "")
  {
    var t := ToTable(fields, rows);
    var v := ToVar(rows);
    forall i | 0 <= i < |rows|
      ensures t.rows[i][0] == Text(if v[i].text.Some? then v[i].text.value else "")
    {
      assert |rows[i].value| > 0;
    }
  }
}
