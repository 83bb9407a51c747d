/** The time-series format: `_toTimeSeries` picks the time, metric and value columns in one
    pass over the schema, and `_buildDataPoints` files every value of every row into the bucket
    of its target label with `findOrCreateBucket`. */
module TimeSeries {
  import opened Wrappers
  import opened Schema
  import opened Seqs

  const NoTimeColumnMessage: string :=
    "No datetime column found in the result. The Time Series format requires a time column."

  /** The column indexes chosen by `_toTimeSeries`; `None` stands for the index -1. */
  datatype Columns = Columns(timeIndex: Option<nat>, metricIndex: Option<nat>, valueIndexes: seq<nat>)

  /** A data point `[value, epoch]`; `value` is `None` for a null cell. */
  datatype Point = Point(value: Option<JsNumber>, epoch: JsNumber)

  /** A series `{target, datapoints, refId}`; the constant `query: ''` is not represented. */
  datatype Bucket = Bucket(target: string, datapoints: seq<Point>, refId: string)

  /** What one value column of one row contributes: a point, filed under `target`, with the
      `refId` a new bucket would take. */
  datatype Sample = Sample(target: string, refId: string, point: Point)

  /** The time-column update of the schema loop: the first time-typed field. */
  function FirstTimeIndex(fields: seq<Field>): (r: Option<nat>)
    ensures r.None? ==> forall i :: 0 <= i < |fields| ==> fields[i].typeName !in TimeTypes
    ensures r.Some? ==>
      && r.value < |fields| && fields[r.value].typeName in TimeTypes
      && forall j :: 0 <= j < r.value ==> fields[j].typeName !in TimeTypes
  {
    if |fields| == 0 then None
    else
      var i := |fields| - 1;
      var r := FirstTimeIndex(fields[..i]);
      assert forall j :: 0 <= j < i ==> fields[..i][j] == fields[j];
      if r.None? && fields[i].typeName in TimeTypes then Some(i) else r
  }

  /** The metric-column update of the schema loop: the first field named `metric`. */
  function FirstMetricIndex(fields: seq<Field>): (r: Option<nat>)
    ensures r.None? ==> forall i :: 0 <= i < |fields| ==> fields[i].name != "metric"
    ensures r.Some? ==>
      && r.value < |fields| && fields[r.value].name == "metric"
      && forall j :: 0 <= j < r.value ==> fields[j].name != "metric"
  {
    if |fields| == 0 then None
    else
      var i := |fields| - 1;
      var r := FirstMetricIndex(fields[..i]);
      assert forall j :: 0 <= j < i ==> fields[..i][j] == fields[j];
      if r.None? && fields[i].name == "metric" then Some(i) else r
  }

  /** The value-column update of the schema loop: every numeric field, in schema order. */
  function NumericIndexes(fields: seq<Field>): (r: seq<nat>)
    ensures forall k :: 0 <= k < |r| ==> r[k] < |fields| && fields[r[k]].typeName in NumericTypes
    ensures forall k, l :: 0 <= k < l < |r| ==> r[k] < r[l]
    ensures forall i :: 0 <= i < |fields| && fields[i].typeName in NumericTypes ==> i in r
  {
    if |fields| == 0 then []
    else
      var i := |fields| - 1;
      var r := NumericIndexes(fields[..i]);
      assert forall j :: 0 <= j < i ==> fields[..i][j] == fields[j];
      if fields[i].typeName in NumericTypes then r + [i] else r
  }

  /** The single pass of `_toTimeSeries` over the schema. Its three updates do not read each
      other, so the pass is the three scans side by side: the first time-typed field, the
      first field named `metric`, and every numeric field in order. */
  function ScanColumns(fields: seq<Field>): (c: Columns)
    ensures c.timeIndex.None? ==> forall i :: 0 <= i < |fields| ==> fields[i].typeName !in TimeTypes
    ensures c.timeIndex.Some? ==>
      && c.timeIndex.value < |fields| && fields[c.timeIndex.value].typeName in TimeTypes
      && forall j :: 0 <= j < c.timeIndex.value ==> fields[j].typeName !in TimeTypes
    ensures c.metricIndex.None? ==> forall i :: 0 <= i < |fields| ==> fields[i].name != "metric"
    ensures c.metricIndex.Some? ==>
      && c.metricIndex.value < |fields| && fields[c.metricIndex.value].name == "metric"
      && forall j :: 0 <= j < c.metricIndex.value ==> fields[j].name != "metric"
    ensures forall k :: 0 <= k < |c.valueIndexes| ==>
      c.valueIndexes[k] < |fields| && fields[c.valueIndexes[k]].typeName in NumericTypes
    ensures forall k, l :: 0 <= k < l < |c.valueIndexes| ==> c.valueIndexes[k] < c.valueIndexes[l]
    ensures forall i :: 0 <= i < |fields| && fields[i].typeName in NumericTypes ==> i in c.valueIndexes
  {
    Columns(FirstTimeIndex(fields), FirstMetricIndex(fields), NumericIndexes(fields))
  }

  /** The metric cell of every present row is non-null, as `.concat` on it demands. The cell
      is read only inside the loop over the value columns, so without a numeric column it may
      be null. */
  predicate MetricCellsPresent(fields: seq<Field>, rows: seq<Option<Row>>)
    requires RowsFit(fields, rows)
  {
    var c := ScanColumns(fields);
    c.metricIndex.Some? && |c.valueIndexes| > 0 ==>
      forall i :: 0 <= i < |rows| && rows[i].Some? ==> rows[i].value[c.metricIndex.value].Some?
  }

  /** What `_toTimeSeries` needs of the rows: nothing when it throws, since it throws before
      reading any row; otherwise full rows with their metric cells present. */
  predicate TimeSeriesReadable(fields: seq<Field>, rows: seq<Option<Row>>) {
    ScanColumns(fields).timeIndex.Some? ==> RowsFit(fields, rows) && MetricCellsPresent(fields, rows)
  }

  /** The chosen columns include a time column, and every index lies inside the schema. */
  predicate ColumnsFit(fields: seq<Field>, c: Columns) {
    && c.timeIndex.Some? && c.timeIndex.value < |fields|
    && (forall k :: 0 <= k < |c.valueIndexes| ==> c.valueIndexes[k] < |fields|)
    && (c.metricIndex.Some? ==> c.metricIndex.value < |fields|)
  }

  /** `row` has one cell per field and, when there are a metric column and a value column, a
      non-null metric. */
  predicate RowFits(fields: seq<Field>, row: Row, c: Columns) {
    && |row| == |fields|
    && (c.metricIndex.Some? && c.metricIndex.value < |row| && |c.valueIndexes| > 0 ==> row[c.metricIndex.value].Some?)
  }

  /** Every present row fits. */
  predicate RowsFitColumns(fields: seq<Field>, rows: seq<Option<Row>>, c: Columns) {
    forall i :: 0 <= i < |rows| && rows[i].Some? ==> RowFits(fields, rows[i].value, c)
  }

  /** The labels `_buildDataPoints` gives the value column `k` of `row`: without a metric
      column both are the column's name; with one, the `refId` is the row's metric and the
      target is the metric alone when there is a single value column, otherwise the metric, a
      space and the column's name. */
  predicate Labelled(fields: seq<Field>, row: Row, c: Columns, k: nat, target: string, refId: string)
    requires ColumnsFit(fields, c) && RowFits(fields, row, c) && k < |c.valueIndexes|
  {
    var col := fields[c.valueIndexes[k]].name;
    if c.metricIndex.None? then target == col && refId == col
    else
      var metric := row[c.metricIndex.value].value;
      && refId == metric
      && target == (if |c.valueIndexes| == 1 then metric else metric + " " + col)
  }

  /** The body of the inner loop of `_buildDataPoints` for the `k`-th value column of `row`:
      the target label, the metric name, and the point `[value, epoch]`. */
  function SampleOf(fields: seq<Field>, row: Row, c: Columns, k: nat): (r: Sample)
    requires ColumnsFit(fields, c) && RowFits(fields, row, c) && k < |c.valueIndexes|
    ensures Labelled(fields, row, c, k, r.target, r.refId)
    ensures r.point.value.None? <==> row[c.valueIndexes[k]].None?
    ensures r.point.value.Some? ==> r.point.value.value == Number(row[c.valueIndexes[k]])
    ensures r.point.epoch == Times1000(Number(row[c.timeIndex.value]))
  {
    var v := c.valueIndexes[k];
    var name := fields[v].name;
    var target0 := if c.metricIndex.Some? then row[c.metricIndex.value].value + " " + name else name;
    var metric := if c.metricIndex.Some? then row[c.metricIndex.value].value else name;
    var target := if c.metricIndex.Some? && |c.valueIndexes| == 1 then metric else target0;
    var value := if row[v].None? then None else Some(Number(row[v]));
    Sample(target, metric, Point(value, Times1000(Number(row[c.timeIndex.value]))))
  }

  /** The inner loop of `_buildDataPoints`: one sample per value column, in schema order. */
  function RowSamples(fields: seq<Field>, row: Row, c: Columns): (r: seq<Sample>)
    requires ColumnsFit(fields, c) && RowFits(fields, row, c)
    ensures |r| == |c.valueIndexes|
    ensures forall k :: 0 <= k < |r| ==>
      && (r[k].point.value.None? <==> row[c.valueIndexes[k]].None?)
      && (r[k].point.value.Some? ==> r[k].point.value.value == Number(row[c.valueIndexes[k]]))
      && r[k].point.epoch == Times1000(Number(row[c.timeIndex.value]))
    ensures forall k :: 0 <= k < |r| ==> Labelled(fields, row, c, k, r[k].target, r[k].refId)
  {
    seq(|c.valueIndexes|, k requires 0 <= k < |c.valueIndexes| =>
      SampleOf(fields, row, c, k))
  }

  /** The outer loop of `_buildDataPoints`: the samples of all rows in order; a null row is
      skipped (`if (row)`). */
  function Samples(fields: seq<Field>, rows: seq<Option<Row>>, c: Columns): seq<Sample>
    requires ColumnsFit(fields, c) && RowsFitColumns(fields, rows, c)
  {
    if |rows| == 0 then []
    else
      var n := |rows| - 1;
      assert RowsFitColumns(fields, rows[..n], c);
      Samples(fields, rows[..n], c)
        + (if rows[n].Some? then RowSamples(fields, rows[n].value, c) else [])
  }

  /** The number of rows that are not null. */
  function PresentCount(rows: seq<Option<Row>>): (r: nat)
    ensures r <= |rows|
  {
    if |rows| == 0 then 0
    else PresentCount(rows[..|rows| - 1]) + (if rows[|rows| - 1].Some? then 1 else 0)
  }

  /** No two buckets share a target. */
  predicate DistinctTargets(data: seq<Bucket>) {
    forall i, j :: 0 <= i < j < |data| ==> data[i].target != data[j].target
  }

  /** `_.find(data, ['target', target])`: the position of the bucket with that target. */
  function FindBucket(data: seq<Bucket>, target: string): (r: Option<nat>)
    ensures r.Some? ==> r.value < |data| && data[r.value].target == target
    ensures r.Some? ==> forall j :: 0 <= j < r.value ==> data[j].target != target
    ensures r.None? ==> forall j :: 0 <= j < |data| ==> data[j].target != target
  {
    if |data| == 0 then None
    else if data[0].target == target then Some(0)
    else match FindBucket(data[1..], target)
      case None => None
      case Some(k) => Some(k + 1)
  }

  /** `findOrCreateBucket` followed by `bucket.datapoints.push(...)`: the point goes to the
      bucket with the sample's target, or to a new bucket appended at the end whose `refId` is
      the sample's metric name. */
  function AddSample(data: seq<Bucket>, s: Sample): (r: seq<Bucket>)
    ensures |r| == |data| + 1 <==> forall j :: 0 <= j < |data| ==> data[j].target != s.target
    ensures |r| == |data| || |r| == |data| + 1
    ensures |r| == |data| + 1 ==> r[|data|] == Bucket(s.target, [s.point], s.refId)
    ensures forall j :: 0 <= j < |data| ==> r[j].target == data[j].target && r[j].refId == data[j].refId
    ensures forall j :: 0 <= j < |data| && data[j].target != s.target ==> r[j] == data[j]
    ensures forall j :: 0 <= j < |data| && data[j].target == s.target && (forall i :: 0 <= i < j ==> data[i].target != s.target) ==>
      r[j].datapoints == data[j].datapoints + [s.point]
  {
    match FindBucket(data, s.target)
    case Some(k) => data[k := data[k].(datapoints := data[k].datapoints + [s.point])]
    case None => data + [Bucket(s.target, [s.point], s.refId)]
  }

  /** All samples filed in order, starting from no buckets. */
  function Group(samples: seq<Sample>): (data: seq<Bucket>)
    ensures DistinctTargets(data)
  {
    if |samples| == 0 then []
    else
      var n := |samples| - 1;
      var prev := Group(samples[..n]);
      var r := AddSample(prev, samples[n]);
      assert FindBucket(prev, samples[n].target).None? ==>
        forall j :: 0 <= j < |prev| ==> r[j].target == prev[j].target;
      r
  }

  /** `_toTimeSeries`: fails with the thrown message when no field is time-typed, before any
      row is read; otherwise the buckets of all samples: one per distinct target in order of
      first appearance, holding that target's points in row and column order, with the
      `refId` of the sample that created it. */
  function ToTimeSeries(fields: seq<Field>, rows: seq<Option<Row>>): (r: Result<seq<Bucket>, string>)
    requires TimeSeriesReadable(fields, rows)
    ensures r.Failure? <==> forall i :: 0 <= i < |fields| ==> fields[i].typeName !in TimeTypes
    ensures r.Failure? ==> r.error == NoTimeColumnMessage
    ensures r.Success? ==> DistinctTargets(r.value)
    ensures r.Success? ==>
      && ColumnsFit(fields, ScanColumns(fields)) && RowsFitColumns(fields, rows, ScanColumns(fields))
      && Filed(Samples(fields, rows, ScanColumns(fields)), r.value)
  {
    var c := ScanColumns(fields);
    if c.timeIndex.None? then Failure(NoTimeColumnMessage)
    else
      var samples := Samples(fields, rows, c);
      GroupSpec(samples);
      Success(Group(samples))
  }

  // Reference definitions for the bucketing promises.

  /** The targets of `samples`, in order. */
  function TargetsOf(samples: seq<Sample>): (r: seq<string>)
    ensures |r| == |samples| && forall i :: 0 <= i < |r| ==> r[i] == samples[i].target
  {
    seq(|samples|, i requires 0 <= i < |samples| => samples[i].target)
  }

  /** The points of the samples filed under `t`, in order. */
  function PointsFor(samples: seq<Sample>, t: string): (r: seq<Point>)
    ensures (forall i :: 0 <= i < |samples| ==> samples[i].target != t) ==> r == []
  {
    if |samples| == 0 then []
    else
      var n := |samples| - 1;
      PointsFor(samples[..n], t) + (if samples[n].target == t then [samples[n].point] else [])
  }

  /** The earliest sample filed under `t`. */
  function FirstSample(samples: seq<Sample>, t: string): (r: Option<Sample>)
    ensures r.None? <==> forall i :: 0 <= i < |samples| ==> samples[i].target != t
    ensures r.Some? ==> r.value.target == t && r.value in samples
  {
    if |samples| == 0 then None
    else
      var n := |samples| - 1;
      var p := FirstSample(samples[..n], t);
      if p.Some? then p else if samples[n].target == t then Some(samples[n]) else None
  }

  /** `data` is what filing `samples` should give: one bucket per distinct target, in order
      of first appearance, holding exactly the points filed under that target, with the
      `refId` of the sample that created it. */
  predicate Filed(samples: seq<Sample>, data: seq<Bucket>) {
    var d := Distinct(TargetsOf(samples));
    && |data| == |d|
    && (forall k :: 0 <= k < |d| ==> data[k].target == d[k])
    && (forall k :: 0 <= k < |data| ==> data[k].datapoints == PointsFor(samples, data[k].target))
    && (forall k :: 0 <= k < |data| ==>
          FirstSample(samples, data[k].target).Some? &&
          data[k].refId == FirstSample(samples, data[k].target).value.refId)
  }

  lemma TargetsOfSnoc(samples: seq<Sample>, e: Sample)
    ensures TargetsOf(samples + [e]) == TargetsOf(samples) + [e.target]
  {
  }

  /** One more sample adds its point to the points of its own target only. */
  lemma PointsForSnoc(samples: seq<Sample>, e: Sample, t: string)
    ensures PointsFor(samples + [e], t) == PointsFor(samples, t) + (if e.target == t then [e.point] else [])
  {
    assert (samples + [e])[..|samples|] == samples;
  }

  /** One more sample becomes the first of its target only if that target had none. */
  lemma FirstSampleSnoc(samples: seq<Sample>, e: Sample, t: string)
    ensures FirstSample(samples + [e], t) ==
      if FirstSample(samples, t).Some? then FirstSample(samples, t)
      else if e.target == t then Some(e) else None
  {
    assert (samples + [e])[..|samples|] == samples;
  }

  /** Filing one more sample keeps `Filed`. */
  lemma AddSampleFiles(samples: seq<Sample>, data: seq<Bucket>, e: Sample)
    requires Filed(samples, data) && DistinctTargets(data)
    ensures Filed(samples + [e], AddSample(data, e))
  {
    TargetsOfSnoc(samples, e);
    DistinctSnoc(TargetsOf(samples), e.target);
    match FindBucket(data, e.target)
    case Some(k) => AddToBucketFiles(samples, data, e, k);
    case None => NewBucketFiles(samples, data, e);
  }

  /** A sample whose target has a bucket extends that bucket's points only. */
  lemma AddToBucketFiles(samples: seq<Sample>, data: seq<Bucket>, e: Sample, k: nat)
    requires Filed(samples, data) && DistinctTargets(data)
    requires k < |data| && data[k].target == e.target && FindBucket(data, e.target) == Some(k)
    requires TargetsOf(samples + [e]) == TargetsOf(samples) + [e.target]
    ensures Filed(samples + [e], AddSample(data, e))
  {
    var all := samples + [e];
    var d := Distinct(TargetsOf(samples));
    var r := AddSample(data, e);
    assert r == data[k := data[k].(datapoints := data[k].datapoints + [e.point])];
    assert d[k] == e.target;
    DistinctSnoc(TargetsOf(samples), e.target);
    assert Distinct(TargetsOf(all)) == d;
    forall j | 0 <= j < |r|
      ensures r[j].target == data[j].target && r[j].refId == data[j].refId
      ensures r[j].datapoints == PointsFor(all, r[j].target)
      ensures FirstSample(all, r[j].target) == FirstSample(samples, r[j].target)
    {
      PointsForSnoc(samples, e, data[j].target);
      FirstSampleSnoc(samples, e, data[j].target);
      if j != k {
        assert data[j].target != data[k].target;
        assert r[j] == data[j];
      }
    }
  }

  /** A sample with a new target opens a bucket at the end, holding its point and its metric
      name. */
  lemma NewBucketFiles(samples: seq<Sample>, data: seq<Bucket>, e: Sample)
    requires Filed(samples, data)
    requires FindBucket(data, e.target).None?
    requires TargetsOf(samples + [e]) == TargetsOf(samples) + [e.target]
    ensures Filed(samples + [e], AddSample(data, e))
  {
    var all := samples + [e];
    var d := Distinct(TargetsOf(samples));
    var r := AddSample(data, e);
    assert e.target !in d by {
      forall k | 0 <= k < |d| ensures d[k] != e.target {
        assert data[k].target == d[k];
      }
    }
    DistinctSnoc(TargetsOf(samples), e.target);
    var d2 := d + [e.target];
    assert Distinct(TargetsOf(all)) == d2;
    assert r == data + [Bucket(e.target, [e.point], e.refId)];
    forall k | 0 <= k < |r|
      ensures r[k].target == d2[k]
      ensures r[k].datapoints == PointsFor(all, r[k].target)
      ensures FirstSample(all, r[k].target).Some? && r[k].refId == FirstSample(all, r[k].target).value.refId
    {
      if k < |data| {
        PointsForSnoc(samples, e, data[k].target);
        FirstSampleSnoc(samples, e, data[k].target);
      } else {
        NewTargetSamples(samples, e);
      }
    }
  }

  /** The first sample of a new target is alone under it. */
  lemma NewTargetSamples(samples: seq<Sample>, e: Sample)
    requires e.target !in Distinct(TargetsOf(samples))
    ensures PointsFor(samples + [e], e.target) == [e.point]
    ensures FirstSample(samples + [e], e.target) == Some(e)
  {
    TargetsOfNoSample(samples, e.target);
    PointsForSnoc(samples, e, e.target);
    FirstSampleSnoc(samples, e, e.target);
  }

  /** A target outside the target list has no sample. */
  lemma TargetsOfNoSample(samples: seq<Sample>, t: string)
    requires t !in Distinct(TargetsOf(samples))
    ensures forall i :: 0 <= i < |samples| ==> samples[i].target != t
  {
    forall i | 0 <= i < |samples| ensures samples[i].target != t {
      assert TargetsOf(samples)[i] == samples[i].target;
    }
  }

  /** What `findOrCreateBucket` builds from the samples in order. */
  lemma {:induction false} GroupSpec(samples: seq<Sample>)
    ensures Filed(samples, Group(samples))
  {
    if |samples| > 0 {
      var n := |samples| - 1;
      var prev := samples[..n];
      assert prev + [samples[n]] == samples;
      var g := Group(prev);
      assert Group(samples) == AddSample(g, samples[n]);
      GroupSpec(prev);
      AddSampleFiles(prev, g, samples[n]);
    }
  }

  /** A present row before position `n` makes the present count of `rows[..n]` exceed that of
      the rows before it. */
  lemma {:induction false} PresentCountGrows(rows: seq<Option<Row>>, i: nat, n: nat)
    requires i < n <= |rows| && rows[i].Some?
    ensures PresentCount(rows[..i]) + 1 <= PresentCount(rows[..n])
  {
    assert rows[..n][..n - 1] == rows[..n - 1];
    if i < n - 1 {
      PresentCountGrows(rows, i, n - 1);
    } else {
      assert rows[..n][n - 1] == rows[i];
    }
  }

  lemma MulMonotone(a: nat, b: nat, v: nat)
    requires a <= b
    ensures a * v <= b * v
  {
  }

  /** There are as many samples as present rows times value columns. */
  lemma {:induction false} SamplesLength(fields: seq<Field>, rows: seq<Option<Row>>, c: Columns)
    requires ColumnsFit(fields, c) && RowsFitColumns(fields, rows, c)
    ensures |Samples(fields, rows, c)| == PresentCount(rows) * |c.valueIndexes|
  {
    if |rows| > 0 {
      var n := |rows| - 1;
      var v := |c.valueIndexes|;
      assert RowsFitColumns(fields, rows[..n], c);
      SamplesLength(fields, rows[..n], c);
      var p := PresentCount(rows[..n]);
      var prev := Samples(fields, rows[..n], c);
      if rows[n].Some? {
        var extra := RowSamples(fields, rows[n].value, c);
        assert Samples(fields, rows, c) == prev + extra;
        assert PresentCount(rows) == p + 1;
        MulSucc(p, v);
      } else {
        assert Samples(fields, rows, c) == prev;
        assert PresentCount(rows) == p;
      }
    }
  }

  /** The last row's samples come after those of the rows before it. */
  lemma SamplesSnoc(fields: seq<Field>, rows: seq<Option<Row>>, c: Columns)
    requires ColumnsFit(fields, c) && RowsFitColumns(fields, rows, c) && |rows| > 0
    ensures RowsFitColumns(fields, rows[..|rows| - 1], c)
    ensures var n := |rows| - 1;
      Samples(fields, rows, c) == Samples(fields, rows[..n], c)
        + (if rows[n].Some? then RowSamples(fields, rows[n].value, c) else [])
  {
  }

  /** The samples of the present row `i` sit right after those of the present rows before it. */
  lemma {:induction false} SamplesOfRow(fields: seq<Field>, rows: seq<Option<Row>>, c: Columns, i: nat)
    requires ColumnsFit(fields, c) && RowsFitColumns(fields, rows, c)
    requires i < |rows| && rows[i].Some?
    ensures var at := PresentCount(rows[..i]) * |c.valueIndexes|;
      && at + |c.valueIndexes| <= |Samples(fields, rows, c)|
      && Samples(fields, rows, c)[at..at + |c.valueIndexes|] == RowSamples(fields, rows[i].value, c)
    decreases |rows|, 1
  {
    if i < |rows| - 1 {
      SamplesOfEarlierRow(fields, rows, c, i);
    } else {
      SamplesOfLastRow(fields, rows, c);
    }
  }

  /** A row before the last keeps its place when the last row's samples are appended. */
  lemma {:induction false} SamplesOfEarlierRow(fields: seq<Field>, rows: seq<Option<Row>>, c: Columns, i: nat)
    requires ColumnsFit(fields, c) && RowsFitColumns(fields, rows, c)
    requires i < |rows| - 1 && rows[i].Some?
    ensures var at := PresentCount(rows[..i]) * |c.valueIndexes|;
      && at + |c.valueIndexes| <= |Samples(fields, rows, c)|
      && Samples(fields, rows, c)[at..at + |c.valueIndexes|] == RowSamples(fields, rows[i].value, c)
    decreases |rows|, 0
  {
    var n := |rows| - 1;
    var v := |c.valueIndexes|;
    var prefix := rows[..n];
    var at := PresentCount(rows[..i]) * v;
    var last := if rows[n].Some? then RowSamples(fields, rows[n].value, c) else [];
    assert RowsFitColumns(fields, prefix, c);
    var a := Samples(fields, prefix, c);
    assert Samples(fields, rows, c) == a + last by {
      SamplesSnoc(fields, rows, c);
    }
    assert at + v <= |a| by {
      SamplesLength(fields, prefix, c);
      RowOffsetFits(rows, i, n, v);
    }
    assert a[at..at + v] == RowSamples(fields, rows[i].value, c) by {
      assert prefix[i] == rows[i];
      assert prefix[..i] == rows[..i];
      SamplesOfRow(fields, prefix, c, i);
    }
    SliceOfLeft(a, last, at, v);
  }

  /** The samples of a present last row close the list. */
  lemma SamplesOfLastRow(fields: seq<Field>, rows: seq<Option<Row>>, c: Columns)
    requires ColumnsFit(fields, c) && RowsFitColumns(fields, rows, c)
    requires |rows| > 0 && rows[|rows| - 1].Some?
    ensures var n := |rows| - 1;
      var at := PresentCount(rows[..n]) * |c.valueIndexes|;
      && at + |c.valueIndexes| <= |Samples(fields, rows, c)|
      && Samples(fields, rows, c)[at..at + |c.valueIndexes|] == RowSamples(fields, rows[n].value, c)
  {
    var n := |rows| - 1;
    SamplesSnoc(fields, rows, c);
    SamplesLength(fields, rows[..n], c);
    SliceOfRight(Samples(fields, rows[..n], c), RowSamples(fields, rows[n].value, c));
  }

  /** The right operand of a concatenation, as a slice. */
  lemma SliceOfRight<T>(a: seq<T>, b: seq<T>)
    ensures (a + b)[|a|..|a| + |b|] == b
  {
  }

  /** The samples of row `i` end no later than those of the rows before `n`. */
  lemma RowOffsetFits(rows: seq<Option<Row>>, i: nat, n: nat, v: nat)
    requires i < n <= |rows| && rows[i].Some?
    ensures PresentCount(rows[..i]) * v + v <= PresentCount(rows[..n]) * v
  {
    PresentCountGrows(rows, i, n);
    MulMonotone(PresentCount(rows[..i]) + 1, PresentCount(rows[..n]), v);
    MulSucc(PresentCount(rows[..i]), v);
  }

  /** A slice inside the left operand of a concatenation. */
  lemma SliceOfLeft<T>(a: seq<T>, b: seq<T>, at: nat, v: nat)
    requires at + v <= |a|
    ensures (a + b)[at..at + v] == a[at..at + v]
  {
  }

  /** Each present row contributes exactly one sample per value column, in schema order, and
      these samples sit together in row order; a null row contributes nothing. */
  lemma SamplesShape(fields: seq<Field>, rows: seq<Option<Row>>, c: Columns)
    requires ColumnsFit(fields, c) && RowsFitColumns(fields, rows, c)
    ensures |Samples(fields, rows, c)| == PresentCount(rows) * |c.valueIndexes|
    ensures forall i :: 0 <= i < |rows| && rows[i].Some? ==>
      var at := PresentCount(rows[..i]) * |c.valueIndexes|;
      && at + |c.valueIndexes| <= |Samples(fields, rows, c)|
      && Samples(fields, rows, c)[at..at + |c.valueIndexes|] == RowSamples(fields, rows[i].value, c)
  {
    SamplesLength(fields, rows, c);
    forall i | 0 <= i < |rows| && rows[i].Some? {
      SamplesOfRow(fields, rows, c, i);
    }
  }

  /** Some present row and value column are labelled `target` and `refId`. */
  predicate LabelledByRows(fields: seq<Field>, rows: seq<Option<Row>>, c: Columns, target: string, refId: string)
    requires ColumnsFit(fields, c) && RowsFitColumns(fields, rows, c)
  {
    exists i, k :: 0 <= i < |rows| && rows[i].Some? && 0 <= k < |c.valueIndexes|
      && Labelled(fields, rows[i].value, c, k, target, refId)
  }

  /** Every bucket is labelled by some present row and value column: its `refId` is that row's
      metric (or the column's name), and its target follows the naming rule. */
  lemma TargetNaming(fields: seq<Field>, rows: seq<Option<Row>>)
    requires TimeSeriesReadable(fields, rows)
    requires ToTimeSeries(fields, rows).Success?
    ensures var c := ScanColumns(fields);
      forall b :: b in ToTimeSeries(fields, rows).value ==>
        LabelledByRows(fields, rows, c, b.target, b.refId)
  {
    var c := ScanColumns(fields);
    var samples := Samples(fields, rows, c);
    GroupSpec(samples);
    SamplesNaming(fields, rows, c);
    var data := Group(samples);
    forall b | b in data
      ensures LabelledByRows(fields, rows, c, b.target, b.refId)
    {
      var j :| 0 <= j < |data| && data[j] == b;
      var s := FirstSample(samples, b.target).value;
      assert s in samples && s.target == b.target && s.refId == b.refId;
    }
  }

  /** The naming rule, sample by sample. */
  lemma {:induction false} SamplesNaming(fields: seq<Field>, rows: seq<Option<Row>>, c: Columns)
    requires ColumnsFit(fields, c) && RowsFitColumns(fields, rows, c)
    ensures forall s :: s in Samples(fields, rows, c) ==>
      LabelledByRows(fields, rows, c, s.target, s.refId)
  {
    if |rows| > 0 {
      var n := |rows| - 1;
      assert RowsFitColumns(fields, rows[..n], c);
      SamplesNaming(fields, rows[..n], c);
      var last := if rows[n].Some? then RowSamples(fields, rows[n].value, c) else [];
      assert Samples(fields, rows, c) == Samples(fields, rows[..n], c) + last;
      forall s | s in Samples(fields, rows, c)
        ensures LabelledByRows(fields, rows, c, s.target, s.refId)
      {
        if s in Samples(fields, rows[..n], c) {
          var i, k :| 0 <= i < n && rows[..n][i].Some? && 0 <= k < |c.valueIndexes|
            && Labelled(fields, rows[..n][i].value, c, k, s.target, s.refId);
          assert rows[..n][i] == rows[i];
        } else {
          var k :| 0 <= k < |last| && last[k] == s;
          assert Labelled(fields, rows[n].value, c, k, s.target, s.refId);
        }
      }
    }
  }
}
