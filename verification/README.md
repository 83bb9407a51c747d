# BigQuery response parser, modelled in Dafny

This project models the response parser of a Grafana BigQuery data source
(`src/response_parser.ts`). That component turns BigQuery result shapes into
the shapes Grafana panels and editors consume. A BigQuery result is a schema
(`schema.fields`, each with `name`, `type` and nested `fields`) plus rows
(`rows[].f[].v`). The parser builds:

- time series, as buckets of `[value, epoch]` points keyed by a target label;
- tables, with converted cells;
- variable values;
- annotations, with a time, an optional end time, a text and tags;
- the field list of the query editor, with `RECORD` columns flattened to dotted paths;
- the table list of a dataset, where partitioned tables are marked and date-sharded
  tables are collapsed into one `..._YYYYMMDD` wildcard entry.

A row is its `f` array, `seq<Option<string>>`, where `None` is a null `v`. A
row that is itself null is an absent `Option<Row>`. Everything is a pure
function over immutable datatypes. Failures are the error arm of `Result`:
the thrown error of the time-series builder and the `$q.reject` of the
annotation transform.

Modules, one per file:

| module | file | models |
|---|---|---|
| `Wrappers` | wrappers.dfy | `Option`, `Result` |
| `Text` | text.dfy | JavaScript `trim`, `indexOf`, `substring(0, n)` |
| `Seqs` | seqs.dfy | distinct elements in order of first appearance (reference) |
| `Schema` | schema.dfy | fields, cells, rows, `{text, value}` items, type sets, `String(v)` |
| `Fields` | fields.dfy | `_handleRecordFields`, `parseTableFields` |
| `TimeSeries` | timeseries.dfy | `_toTimeSeries`, `_buildDataPoints`, `findOrCreateBucket` |
| `TableFormat` | table.dfy | `_convertValues`, `_toTable`, `_toVar` |
| `Query` | query.dfy | `parseDataQuery` |
| `Annotations` | annotations.dfy | `transformAnnotationResponse`, `guessSecondsOrMillis`, the tag split |
| `DateSuffix` | datesuffix.dfy | the date-tail pattern of `_handleWildCardTables` |
| `WildcardTables` | wildcardtables.dfy | `manipulateItem`, `parseTables`, `_handleWildCardTables` |

The model follows the code, including behaviour that a reader of the date pattern or of the filter might not expect:

- The date test is a regular expression, not a calendar check. It rejects
  2000-02-29. It accepts a comma as a month character (`_20230,29`). It also
  accepts six- and seven-digit tails (`_202311`), yet the wildcard name still
  cuts eight characters.
- `parseTableFields` lists a field once per filter entry equal to its type, so a
  repeated filter entry repeats the field.

## Model

| member | source | states |
|---|---|---|
| Fields.Renamed | src/response_parser.ts:126-128 | each grandchild keeps its type and children, and its name gains the parent path as a prefix |
| Fields.HandleRecordFields | src/response_parser.ts:119-137 | the as-written traversal never emits a `RECORD` entry |
| Fields.HandleChildren | src/response_parser.ts:122-131 | the loop over a record's children never emits a `RECORD` entry |
| Fields.Flatten | src/response_parser.ts:119-137 | reference flattening by dotted path; no emitted leaf is a `RECORD` |
| Fields.HandleRecordFieldsIsFlatten | src/response_parser.ts:119-137 | the as-written traversal with in-place renaming emits exactly the path-named non-record leaves in depth-first order |
| Fields.HandleChildrenIsFlatten | src/response_parser.ts:122-131 | the children of a record flatten under the prefix `parent.`, at any depth |
| Fields.Matching | src/response_parser.ts:35-41 | a leaf is listed once per filter entry equal to its type, and nothing else is listed |
| Fields.MatchingInFilter | src/response_parser.ts:35-41 | every entry listed for a leaf has its type in the filter |
| Fields.Select | src/response_parser.ts:33-48 | with an empty filter there is one entry per leaf; with a filter, every entry's type is in the filter |
| Fields.SelectOne | src/response_parser.ts:34-42 | under a non-empty filter, one leaf contributes one `{name, type}` per filter entry equal to its type |
| Fields.SelectAppend | src/response_parser.ts:33-49 | the selection distributes over concatenation of the leaf list, so the entries keep the depth-first leaf order under any filter |
| Fields.FlattenAppend | src/response_parser.ts:120-136 | the flattened leaves of two field lists are those of the first followed by those of the second |
| Fields.ParseTableFieldsAppend | src/response_parser.ts:26-51 | the entries of leading fields come before those of trailing fields, for every filter |
| Fields.ParseTableFields | src/response_parser.ts:26-51 | absent or empty input gives `[]`; an empty filter lists every flattened leaf as `{name, type}`, in order |
| Fields.SelectAll | src/response_parser.ts:43-48 | with an empty filter, the i-th entry describes the i-th leaf |
| Fields.SelectCount | src/response_parser.ts:33-42 | with a filter, an entry's count is its leaf count times the count of its type in the filter |
| Fields.ParseTableFieldsFiltered | src/response_parser.ts:26-51 | the result is the selection over the flattened leaves in depth-first order; an entry is listed iff it describes a leaf whose type is in the filter, with multiplicity leaf count times filter count |
| TimeSeries.ScanColumns | src/response_parser.ts:139-152 | time column = first time-typed field; metric = first field named `metric`; values = every numeric field, in increasing schema order |
| TimeSeries.SampleOf | src/response_parser.ts:166-175 | one value column of one row: the labels follow the naming rule; the value is null iff the cell is null, and otherwise `Number` of that value cell; the epoch is the time cell times 1000 |
| TimeSeries.ToTimeSeries | src/response_parser.ts:138-157 | fails with the thrown message iff no field is time-typed, before any row is read; on success, one bucket per distinct target in order of first appearance, holding exactly that target's points in row and column order, with the `refId` of the sample that created it |
| TimeSeries.RowSamples | src/response_parser.ts:166-176 | a row yields one sample per value column, in schema order; each is labelled by the naming rule; a point's value is null iff its cell is null, and otherwise `Number` of its own value cell; its epoch is the time cell times 1000 |
| TimeSeries.SamplesShape | src/response_parser.ts:164-179 | each non-null row contributes one sample per value column, contiguously and in row order; a null row contributes nothing |
| TimeSeries.FindBucket | src/response_parser.ts:184 | `_.find`: the index of the first bucket with the target, or none when no bucket has it |
| TimeSeries.AddSample | src/response_parser.ts:174-191 | a new target appends a bucket `{target, [point], refId}`; a known target appends the point to its first bucket; every other bucket, and every target and `refId`, is unchanged |
| TimeSeries.Group | src/response_parser.ts:183-191 | find-or-append never creates two buckets with one target |
| TimeSeries.GroupSpec | src/response_parser.ts:174-191 | buckets are the distinct targets in order of first appearance; each holds exactly its points in order; `refId` comes from the sample that created it |
| TimeSeries.AddSampleFiles | src/response_parser.ts:183-191 | filing one more sample keeps the bucket list equal to the grouping of all samples so far |
| TimeSeries.SamplesNaming | src/response_parser.ts:164-173 | every sample carries the labels of some present row and value column: the `refId` is that row's metric (or the column's name), and the target is the column's name, the metric alone, or `metric + ' ' + column` |
| TimeSeries.TargetNaming | src/response_parser.ts:164-188 | every output bucket carries the labels of some present row and value column, by the same rule |
| TimeSeries.FirstSample | src/response_parser.ts:184-188 | the sample that creates a target's bucket exists iff some sample has that target |
| TableFormat.ConvertValue | src/response_parser.ts:73-82 | the six numeric types become numbers; `TIMESTAMP` becomes a date text of seconds times 1000; any other type is returned unchanged |
| TableFormat.ToTable | src/response_parser.ts:193-217 | columns are the schema's (name, type) pairs; one row per input row with one entry per cell of that row; null or empty cells become `''`, also past the end of the schema; pass-through columns keep the raw text |
| TableFormat.ToVar | src/response_parser.ts:219-228 | one `{text}` per row, holding the row's first cell unconverted |
| TableFormat.VarIsFirstTableColumn | src/response_parser.ts:219-228 | the variable values are the first column of the table format whenever that column is passed through |
| Query.ParseDataQuery | src/response_parser.ts:53-71 | absent rows give `[{data: []}]` for every format; the only failure is the time-series throw, and otherwise `time_series` returns exactly the time-series builder's buckets; `table`/`var` delegate; any other format gives `[]` |
| Annotations.LastPosition | src/response_parser.ts:246-250 | the index of a name is its last occurrence in the schema, or -1 when it does not occur |
| Annotations.IndexColumns | src/response_parser.ts:240-250 | `time`, `timeend`, `text` and `tags` are each located independently, at the last field of exactly that name |
| Annotations.SecondsAndMillisAgree | src/response_parser.ts:271-289 | for 10^7 <= s < 10^10, the seconds reading s and the millis reading 1000*s both give 1000*s |
| Annotations.GuessSecondsOrMillis | src/response_parser.ts:277-289 | every result is in milliseconds: a value with magnitude below 10^10 is scaled by 1000, any other value is kept |
| Annotations.NonEmpty | src/response_parser.ts:265-267 | a piece is kept iff it is non-empty, and nothing is added |
| Annotations.NonEmptyAppend | src/response_parser.ts:265-267 | the filter keeps the order of the pieces: it distributes over concatenation |
| Annotations.RegexSplit | src/response_parser.ts:265 | `split(/\s*,\s*/)` yields at least one piece, and no piece contains a comma |
| Annotations.Tags | src/response_parser.ts:265-267 | every tag is non-empty and has no comma |
| Annotations.SplitOnComma | src/response_parser.ts:265 | reference split: at least one piece |
| Annotations.SplitPiecesCommaFree | src/response_parser.ts:265 | no piece of the reference split contains a comma |
| Annotations.CommaIndexIsFirst | src/response_parser.ts:265 | a comma with no comma before it is where the split cuts first |
| Annotations.SplitPrefixed | src/response_parser.ts:265 | a comma-free prefix joins the first piece and leaves the later pieces unchanged |
| Annotations.SplitAfterSpace | src/response_parser.ts:264-265 | whitespace before a text does not change its trimmed comma pieces |
| Annotations.RegexSplitIsTrimmedSplit | src/response_parser.ts:265 | on a trimmed text, splitting at commas with the surrounding whitespace absorbed equals splitting at commas and trimming each piece |
| Annotations.TagsSpec | src/response_parser.ts:265-267 | the tags are the trimmed comma pieces of `String(cell)` in text order; each tag is non-empty, has no comma and no edge whitespace |
| Annotations.NullTags | src/response_parser.ts:264-265 | a null tags cell yields the single tag `"null"` |
| Annotations.AnnotationOf | src/response_parser.ts:260-268 | one row: the query's annotation is passed through; the end time is present iff a `timeend` column exists; absent text and tags columns give `''` and `[]`; tags are non-empty and comma-free |
| Annotations.TransformAnnotationResponse | src/response_parser.ts:238-269 | rejected iff no field is named `time`, before any row is read; absent or empty rows give `[]`; one annotation per row; absent columns give null/`''`/`[]` |
| DateSuffix.DateTail | src/response_parser.ts:301 | the three alternatives after the underscore; any match has six to eight characters and ends in a digit |
| DateSuffix.PatternIsDateSuffix | src/response_parser.ts:301 | the pattern (some underscore followed by a date tail that ends the id) matches iff an underscore sits 7, 8 or 9 characters from the end with a date tail after it |
| DateSuffix.PatternAtTail | src/response_parser.ts:301 | any underscore the pattern matches sits 7, 8 or 9 characters from the end |
| DateSuffix.NoDateSuffixWithoutFinalDigit | src/response_parser.ts:301 | an id that does not end in a digit never matches |
| DateSuffix.AcceptsFirstOfJanuary | src/response_parser.ts:301 | `_20230101` matches |
| DateSuffix.AcceptsSecondOfJanuary | src/response_parser.ts:301 | `_20230102` matches |
| DateSuffix.AcceptsLeapDay | src/response_parser.ts:301 | `_20240229` matches |
| DateSuffix.RejectsFebruaryThirtieth | src/response_parser.ts:301 | `_20230230` does not match |
| DateSuffix.RejectsCommonLeapDay | src/response_parser.ts:301 | `_20230229` does not match |
| DateSuffix.RejectsLeapDayOf2000 | src/response_parser.ts:301 | `_20000229` does not match, because the leap alternative excludes the year 2000 |
| DateSuffix.AcceptsShortTail | src/response_parser.ts:301 | the six-character tail `_202311` matches |
| DateSuffix.AcceptsCommaMonth | src/response_parser.ts:301 | the comma tail `_20230,29` matches |
| WildcardTables.StripPartitioned | src/response_parser.ts:295-298 | the result is the text before the first occurrence of `__partitioned`, or the whole text when the marker does not occur |
| WildcardTables.ShownId | src/response_parser.ts:109-117 | the shown id extends the table id, and differs from it iff the resource is a time-partitioned `bigquery#table`, in which case the marker follows the id and is followed by `__<field>` exactly when the partitioning field is named and non-empty |
| WildcardTables.WildcardName | src/response_parser.ts:304-307 | a wildcard name is the text minus its last eight characters (nothing left for a text shorter than eight) followed by `YYYYMMDD`, and never matches the date pattern |
| WildcardTables.KeyOf | src/response_parser.ts:299-308 | a table is filed under an undated key: its value when undated, otherwise the wildcard name of its marker-stripped text |
| WildcardTables.TextOf | src/response_parser.ts:295-308 | the filed text is free of the marker, and equals the key for a dated table |
| WildcardTables.StripShownId | src/response_parser.ts:109-117 | for an id without the marker: the shown id carries the marker iff the table is a time-partitioned `bigquery#table`, and stripping gives back the id |
| WildcardTables.WildcardNameClean | src/response_parser.ts:304-308 | a wildcard name never matches the date pattern, and it carries the marker only if the text did |
| WildcardTables.Set | src/response_parser.ts:303-308 | `Map.set`: an existing key keeps its position and takes the new value; a new key is appended; keys stay distinct |
| WildcardTables.Build | src/response_parser.ts:292-309 | setting entries in order leaves distinct keys, and every map entry is one of the entries set |
| WildcardTables.BuildKeys | src/response_parser.ts:292-309 | the map's keys are the distinct keys set, in order of first insertion |
| WildcardTables.BuildValues | src/response_parser.ts:292-309 | each key holds the value of the last entry set under it |
| WildcardTables.BuildDistinct | src/response_parser.ts:292-309 | entries with distinct keys come out of the map as they went in |
| WildcardTables.Fill | src/response_parser.ts:293-309 | the map's keys are distinct; no key is dated; no value carries the marker |
| WildcardTables.HandleWildCardTables | src/response_parser.ts:291-315 | output values are pairwise distinct; no text contains `__partitioned`; no value matches the date pattern |
| WildcardTables.FillSpec | src/response_parser.ts:293-309 | keys are the distinct filing keys in first-insertion order; each value is the text of the last table filed under that key |
| WildcardTables.HandleWildCardTablesSpec | src/response_parser.ts:291-315 | the i-th output is the i-th distinct key, with the text of the last table filed under it |
| WildcardTables.FixedPoint | src/response_parser.ts:291-315 | distinct, undated, unmarked entries pass through unchanged |
| WildcardTables.Idempotent | src/response_parser.ts:291-315 | normalising the output again returns it unchanged |
| WildcardTables.DatedTablesCollapse | src/response_parser.ts:300-309 | two dated tables with the same wildcard name give a single entry whose text and value are that name |
| WildcardTables.DatedTablesKeptApart | src/response_parser.ts:299-315 | two dated tables whose stripped texts differ before their last eight characters give two entries, each under its own wildcard name |
| WildcardTables.WildcardNamesDiffer | src/response_parser.ts:307 | texts that differ before their last eight characters have different wildcard names |
| WildcardTables.DifferentFilingsKept | src/response_parser.ts:304-315 | two tables filed under different keys give two entries, in order |
| WildcardTables.FamiliesKept | src/response_parser.ts:299-315 | dated tables `p20230101` and `q20230101` of two five-character families stay apart as `pYYYYMMDD` and `qYYYYMMDD` |
| WildcardTables.FamiliesKeptExample | src/response_parser.ts:291-315 | `logs_20230101` and `data_20230101` give `logs_YYYYMMDD` and `data_YYYYMMDD` |
| WildcardTables.CollapseExample | src/response_parser.ts:291-315 | `events_20230101` and `events_20230102` collapse to one `{events_YYYYMMDD, events_YYYYMMDD}` |
| WildcardTables.KeptExample | src/response_parser.ts:291-315 | `events_20230230` and `events_20230229` are kept as they are |
| WildcardTables.ParseTables | src/response_parser.ts:232-236 | absent or empty results give `[]` |
| WildcardTables.ParseTablesText | src/response_parser.ts:232-236 | every listed table's text is its value with the partition marker stripped |
| Text.Trim | src/response_parser.ts:265 | `trim()` leaves no white space at either end |
| Text.TrimIsMiddle | src/response_parser.ts:265 | the trimmed text is the middle of the input, and everything removed before and after it is white space |
| Text.IndexOf | src/response_parser.ts:295 | `indexOf`: -1 iff the pattern does not occur; otherwise the first position where it occurs |
| Text.Prefix | src/response_parser.ts:297 | `substring(0, end)` clamps `end` into the text and returns that prefix |
| Schema.JsString | src/response_parser.ts:264-265 | `String(v)` of a null cell is `"null"`, of any other its text |

## Left out

- JavaScript `Number(...)`, floating point and `NaN` (lines 75, 167, 175 and 278). Numbers stay symbolic (`JsNumber`: the parsed cell, and that value times 1000).
- `new Date(...).toString()` (line 78). It depends on the time zone and locale, so the date text stays symbolic in its instant.
- `Math.floor(Number(v))` in `guessSecondsOrMillis`. It is a parameter `floorNumber` of the annotation transform, and `GuessSecondsOrMillis` starts from the floored integer.
- The `$q` promise service (lines 230 and 252). A rejection is the `Failure` arm of `Result`.
- `parseProjects`, `parseDatasets` and the generic dotted-path walk of `parseData` (lines 18-24 and 84-107). These are untyped property access. Only the `tableReference.tableId` pairing used by `parseTables` is modelled, and the list of table resources is given directly.
- Mutation of the caller's objects: the in-place renaming (line 127) and the rewritten `tableId` (lines 111-113). Only returned values are modelled.
- The constant `query: ''` of each time-series bucket and `type: 'table'` of the table result. These carry no information.
- Malformed input is excluded by preconditions. Most of it crashes the source: a null metric cell while there is a value column (`.concat` on null), a row in the table format with a non-empty cell past the end of the schema (`columns[i].type` is read only for a truthy cell, so null or empty cells there give `''`), a null or empty row in the `var` format, a null row in the annotation transform, a `RECORD` without `fields`. The time-series path (after its time check) and the annotation transform (after its `time` check) also require every present row to have exactly one cell per field, which excludes rows of another length that still reach every cell those paths read. Input the source reads without crashing otherwise stays in: a null metric cell with no value column, short rows in the table format, and any rows when the time-series or annotation check fails first.
- Strings are sequences of Unicode scalar values, while JavaScript's `length`, `substring`, `indexOf` and `trim` count UTF-16 code units. Text outside the Basic Multilingual Plane is therefore not modelled exactly: for example, cutting eight units off `😀_202311` splits the surrogate pair in JavaScript, but the model cuts eight characters.
- WildcardTables.ParseTables: its contract covers only the empty cases. Its content is stated by `ParseTablesText` and by the `HandleWildCardTables` lemmas.
