/** `parseDataQuery`: routes a query response to the builder of the requested format. */
module Query {
  import opened Wrappers
  import opened Schema
  import TimeSeries
  import TableFormat

  /** The value returned by `parseDataQuery`. */
  datatype QueryOutput =
    | NoRows                                      // `[{data: []}]`, when `rows` is absent
    | Series(buckets: seq<TimeSeries.Bucket>)      // format `time_series`
    | TableOut(table: TableFormat.Table)           // format `table`
    | Values(items: seq<TableFormat.VarItem>)      // format `var`
    | Unknown                                     // `[]`, for any other format

  /** What each builder reads without crashing: the time-series builder needs full rows and
      non-null metric cells once it has a time column, the table builder rows no longer than
      the schema, and `var` a first cell in every row. */
  predicate Readable(result: QueryResult, format: string) {
    result.rows.Some? ==>
      var rows := result.rows.value;
      && (format == "time_series" ==> TimeSeries.TimeSeriesReadable(result.fields, rows))
      && (format == "table" ==> TableFormat.RowsWithin(result.fields, rows))
      && (format == "var" ==> forall i :: 0 <= i < |rows| ==> rows[i].Some? && |rows[i].value| > 0)
  }

  /** `parseDataQuery`: absent rows give `[{data: []}]` whatever the format; an unknown
      format gives `[]`; the time-series builder's throw is the only failure. */
  function ParseDataQuery(result: QueryResult, format: string): (r: Result<QueryOutput, string>)
    requires Readable(result, format)
    ensures result.rows.None? ==> r == Success(NoRows)
    ensures r.Failure? <==>
      && result.rows.Some? && format == "time_series"
      && forall i :: 0 <= i < |result.fields| ==> result.fields[i].typeName !in TimeTypes
    ensures r.Failure? ==> r.error == TimeSeries.NoTimeColumnMessage
    ensures result.rows.Some? && format == "table" ==>
      r == Success(TableOut(TableFormat.ToTable(result.fields, result.rows.value)))
    ensures result.rows.Some? && format == "var" ==>
      r == Success(Values(TableFormat.ToVar(result.rows.value)))
    ensures result.rows.Some? && format == "time_series" && r.Success? ==>
      && TimeSeries.ToTimeSeries(result.fields, result.rows.value).Success?
      && r == Success(Series(TimeSeries.ToTimeSeries(result.fields, result.rows.value).value))
    ensures result.rows.Some? && format != "time_series" && format != "table" && format != "var" ==>
      r == Success(Unknown)
  {
    if result.rows.None? then Success(NoRows)
    else
      var rows := result.rows.value;
      if format == "time_series" then
        match TimeSeries.ToTimeSeries(result.fields, rows)
        case Failure(e) => Failure(e)
        case Success(buckets) => Success(Series(buckets))
      else if format == "table" then Success(TableOut(TableFormat.ToTable(result.fields, rows)))
      else if format == "var" then
        Success(Values(TableFormat.ToVar(rows)))
      else Success(Unknown)
  }
}
