/** Annotation queries: `transformAnnotationResponse` turns each row into an event marker,
    with `guessSecondsOrMillis` for the time cells and a comma split for the tags cell. */
module Annotations {
  import opened Wrappers
  import opened Text
  import opened Schema

  const MissingTimeMessage: string := "Missing mandatory time column in annotation query."

  /** The `index` object: the positions of the columns named `time`, `timeend`, `text` and
      `tags`; `None` stands for -1. */
  datatype ColumnIndex = ColumnIndex(time: Option<nat>, timeEnd: Option<nat>, text: Option<nat>, tags: Option<nat>)

  /** An annotation; `annotation` is the caller's `options.annotation`, carried unchanged. */
  datatype Annotation<A> = Annotation(annotation: A, time: int, timeEnd: Option<int>, text: string, tags: seq<string>)

  /** `o` is the position of the last field called `name`, or `None` when no field is. */
  predicate IsLastNamed(fields: seq<Field>, name: string, o: Option<nat>) {
    match o
    case None => forall i :: 0 <= i < |fields| ==> fields[i].name != name
    case Some(k) =>
      k < |fields| && fields[k].name == name && forall j :: k < j < |fields| ==> fields[j].name != name
  }

  /** The position the `forEach` over the schema leaves under the key `name`: every field
      so named overwrites it, so a repeated name resolves to its last occurrence. */
  function LastPosition(fields: seq<Field>, name: string): (o: Option<nat>)
    ensures IsLastNamed(fields, name, o)
  {
    if |fields| == 0 then None
    else
      var i := |fields| - 1;
      if fields[i].name == name then Some(i)
      else
        var o := LastPosition(fields[..i], name);
        assert forall j :: 0 <= j < i ==> fields[..i][j] == fields[j];
        o
  }

  /** The `index` object after the `forEach` over the schema; the four keys are updated
      independently, and `hasOwnProperty` admits no other name. */
  function IndexColumns(fields: seq<Field>): (ix: ColumnIndex)
    ensures IsLastNamed(fields, "time", ix.time)
    ensures IsLastNamed(fields, "timeend", ix.timeEnd)
    ensures IsLastNamed(fields, "text", ix.text)
    ensures IsLastNamed(fields, "tags", ix.tags)
  {
    ColumnIndex(
      LastPosition(fields, "time"), LastPosition(fields, "timeend"),
      LastPosition(fields, "text"), LastPosition(fields, "tags"))
  }

  /** Below this magnitude a timestamp is read as epoch seconds (`1e10`). */
  const SecondsLimit: int := 10_000_000_000

  /** `guessSecondsOrMillis` on the already floored value `t`. Every result is in
      milliseconds: either the input was already past the limit and is kept, or it was scaled
      up, so the result is a whole number of seconds below `1e13`. */
  function GuessSecondsOrMillis(t: int): (r: int)
    ensures || (r == t && (t <= -SecondsLimit || SecondsLimit <= t))
            || (r % 1000 == 0 && -SecondsLimit * 1000 < r < SecondsLimit * 1000 && r / 1000 == t)
  {
    if -SecondsLimit < t < SecondsLimit then t * 1000 else t
  }

  /** The promise of the doc comment: for an instant from 1970-04-26 up to 2286-11-20 on a
      whole second, its epoch-seconds and its epoch-millis readings both come out as the same
      millis. Below `1e7` seconds the two readings would disagree. */
  lemma SecondsAndMillisAgree(s: int)
    requires 10_000_000 <= s < SecondsLimit
    ensures GuessSecondsOrMillis(s) == s * 1000
    ensures GuessSecondsOrMillis(s * 1000) == s * 1000
  {
  }

  /** The position of the first comma. */
  function CommaIndex(s: string): (r: Option<nat>)
    ensures r.Some? ==> r.value < |s| && s[r.value] == ',' && ',' !in s[..r.value]
    ensures r.None? ==> ',' !in s
  {
    if |s| == 0 then None
    else if s[0] == ',' then Some(0)
    else match CommaIndex(s[1..])
      case None => None
      case Some(k) =>
        assert s[..k + 1] == [s[0]] + s[1..][..k];
        Some(k + 1)
  }

  /** `split` of `s` on the regular expression `\s*,\s*`. The leftmost match of `\s*,\s*` begins at the run of white space
      just before the first comma, since a match reaches its comma through white space only;
      the greedy `\s*` after the comma takes the whole run of white space that follows. So the
      first piece is the text before the first comma less its trailing white space, and the
      split resumes after the comma and the white space after it. */
  function RegexSplit(s: string): (r: seq<string>)
    ensures |r| > 0
    ensures forall k :: 0 <= k < |r| ==> ',' !in r[k]
    decreases |s|
  {
    match CommaIndex(s)
    case None => [s]
    case Some(c) =>
      var head := TrimEnd(s[..c]);
      assert forall i :: 0 <= i < |head| ==> head[i] == s[..c][i];
      [head] + RegexSplit(TrimStart(s[c + 1..]))
  }

  /** `.filter(t => t.length)`: the non-empty pieces, in order. */
  function NonEmpty(ps: seq<string>): (r: seq<string>)
    ensures forall t :: t in r <==> t in ps && |t| > 0
    ensures |r| <= |ps|
  {
    if |ps| == 0 then []
    else (if |ps[0]| > 0 then [ps[0]] else []) + NonEmpty(ps[1..])
  }

  /** Filtering keeps the order of the pieces: it distributes over concatenation. */
  lemma {:induction false} NonEmptyAppend(a: seq<string>, b: seq<string>)
    ensures NonEmpty(a + b) == NonEmpty(a) + NonEmpty(b)
  {
    if |a| > 0 {
      assert (a + b)[1..] == a[1..] + b;
      NonEmptyAppend(a[1..], b);
    } else {
      assert a + b == b;
    }
  }

  /** The tags of a cell: `String(v).trim()` split on `\s*,\s*`, without
      the empty pieces. */
  function Tags(cell: Cell): (r: seq<string>)
    ensures forall t :: t in r ==> |t| > 0 && ',' !in t
  {
    NonEmpty(RegexSplit(Trim(JsString(cell))))
  }

  /** Reference definition: the pieces of `s` between commas, in order. */
  function SplitOnComma(s: string): (r: seq<string>)
    ensures |r| > 0
    decreases |s|
  {
    match CommaIndex(s)
    case None => [s]
    case Some(c) => [s[..c]] + SplitOnComma(s[c + 1..])
  }

  /** No piece of the comma split contains a comma. */
  lemma {:induction false} SplitPiecesCommaFree(s: string)
    ensures forall p :: p in SplitOnComma(s) ==> ',' !in p
    decreases |s|
  {
    match CommaIndex(s)
    case None =>
    case Some(c) =>
      SplitPiecesCommaFree(s[c + 1..]);
      assert SplitOnComma(s) == [s[..c]] + SplitOnComma(s[c + 1..]);
  }

  /** Every piece trimmed. */
  function TrimAll(ps: seq<string>): seq<string> {
    if |ps| == 0 then [] else [Trim(ps[0])] + TrimAll(ps[1..])
  }

  lemma TrimStartFixed(s: string)
    requires |s| == 0 || !IsSpace(s[0])
    ensures TrimStart(s) == s
  {
  }

  /** Leading white space makes no difference to `TrimStart`. */
  lemma {:induction false} TrimStartAfterSpace(w: string, x: string)
    requires forall i :: 0 <= i < |w| ==> IsSpace(w[i])
    ensures TrimStart(w + x) == TrimStart(x)
  {
    if |w| > 0 {
      assert (w + x)[1..] == w[1..] + x;
      TrimStartAfterSpace(w[1..], x);
    } else {
      assert w + x == x;
    }
  }

  lemma TrimAllCons(p: string, ps: seq<string>)
    ensures TrimAll([p] + ps) == [Trim(p)] + TrimAll(ps)
  {
    assert ([p] + ps)[1..] == ps;
  }

  /** A comma with no comma before it is the first comma. */
  lemma CommaIndexIsFirst(s: string, k: nat)
    requires k < |s| && s[k] == ',' && ',' !in s[..k]
    ensures CommaIndex(s) == Some(k)
  {
    assert s[k] in s;
    assert forall i :: 0 <= i < k ==> s[..k][i] == s[i];
  }

  /** A comma-free prefix shifts the first comma by its length. */
  lemma CommaIndexAfter(w: string, v: string)
    requires ',' !in w
    ensures CommaIndex(w + v).None? <==> CommaIndex(v).None?
    ensures CommaIndex(v).Some? ==> CommaIndex(w + v) == Some(|w| + CommaIndex(v).value)
  {
    match CommaIndex(v)
    case None =>
      NoCommaInJoin(w, v);
    case Some(c) =>
      CommaIndexShifted(w, v, c);
  }

  /** The first comma of `v`, at `c`, is the first comma of `w + v` when `w` has none. */
  lemma CommaIndexShifted(w: string, v: string, c: nat)
    requires ',' !in w && CommaIndex(v) == Some(c)
    ensures CommaIndex(w + v) == Some(|w| + c)
  {
    var u := w + v;
    assert u[..|w| + c] == w + v[..c];
    NoCommaInJoin(w, v[..c]);
    CommaIndexIsFirst(u, |w| + c);
  }

  lemma NoCommaInJoin(w: string, v: string)
    requires ',' !in w && ',' !in v
    ensures ',' !in w + v
  {
    var u := w + v;
    assert forall i :: |w| <= i < |u| ==> u[i] == v[i - |w|];
  }

  /** White space before a text changes only its first comma piece, and only by white space
      that trimming removes. */
  lemma SplitAfterSpace(w: string, v: string)
    requires forall i :: 0 <= i < |w| ==> IsSpace(w[i])
    ensures TrimAll(SplitOnComma(w + v)) == TrimAll(SplitOnComma(v))
  {
    assert ',' !in w by {
      assert !IsSpace(',');
    }
    SplitPrefixed(w, v);
    TrimAfterSpace(w, SplitOnComma(v)[0]);
    TrimAllSameHead(SplitOnComma(w + v), SplitOnComma(v));
  }

  /** A comma-free prefix joins the first comma piece and leaves the others alone. */
  lemma SplitPrefixed(w: string, v: string)
    requires ',' !in w
    ensures SplitOnComma(w + v)[0] == w + SplitOnComma(v)[0]
    ensures SplitOnComma(w + v)[1..] == SplitOnComma(v)[1..]
  {
    CommaIndexAfter(w, v);
    match CommaIndex(v)
    case None =>
    case Some(c) =>
      SplitPrefixedAt(w, v, c);
  }

  /** `SplitPrefixed` when `v` has its first comma at `c`. */
  lemma SplitPrefixedAt(w: string, v: string, c: nat)
    requires ',' !in w && CommaIndex(v) == Some(c) && CommaIndex(w + v) == Some(|w| + c)
    ensures SplitOnComma(w + v)[0] == w + SplitOnComma(v)[0]
    ensures SplitOnComma(w + v)[1..] == SplitOnComma(v)[1..]
  {
    SplitAtComma(w + v, |w| + c);
    SplitAtComma(v, c);
    JoinSlices(w, v, c);
  }

  /** Cutting `w + v` after position `k` of `v`. */
  lemma JoinSlices(w: string, v: string, k: nat)
    requires k < |v|
    ensures (w + v)[..|w| + k] == w + v[..k]
    ensures (w + v)[|w| + k + 1..] == v[k + 1..]
  {
  }

  lemma TrimAfterSpace(w: string, x: string)
    requires forall i :: 0 <= i < |w| ==> IsSpace(w[i])
    ensures Trim(w + x) == Trim(x)
  {
    TrimStartAfterSpace(w, x);
  }

  lemma TrimAllSameHead(a: seq<string>, b: seq<string>)
    requires |a| > 0 && |b| > 0 && a[1..] == b[1..] && Trim(a[0]) == Trim(b[0])
    ensures TrimAll(a) == TrimAll(b)
  {
  }

  lemma SplitAtComma(s: string, c: nat)
    requires CommaIndex(s) == Some(c)
    ensures |SplitOnComma(s)| > 1
    ensures SplitOnComma(s)[0] == s[..c] && SplitOnComma(s)[1..] == SplitOnComma(s[c + 1..])
  {
    var r := SplitOnComma(s[c + 1..]);
    assert SplitOnComma(s) == [s[..c]] + r;
    assert ([s[..c]] + r)[1..] == r;
  }

  /** Splitting a text on commas and trimming the pieces does not see its leading white space. */
  lemma SplitIgnoresLeadingSpace(u: string)
    ensures TrimAll(SplitOnComma(TrimStart(u))) == TrimAll(SplitOnComma(u))
  {
    var v := TrimStart(u);
    var w := u[..|u| - |v|];
    assert u == w + v;
    TrimStartDropsSpace(u);
    SplitAfterSpace(w, v);
  }

  /** The regular-expression split of a text without edge white space is the comma split with
      every piece trimmed: the white space around each comma is absorbed. */
  lemma {:induction false} RegexSplitIsTrimmedSplit(s: string)
    requires NoEdgeSpace(s)
    ensures RegexSplit(s) == TrimAll(SplitOnComma(s))
    decreases |s|
  {
    TrimStartFixed(s);
    match CommaIndex(s)
    case None =>
      assert TrimEnd(s) == s;
    case Some(c) =>
      var rest := s[c + 1..];
      var t := TrimStart(rest);
      assert NoEdgeSpace(t) by {
        if |t| > 0 {
          assert t[|t| - 1] == s[|s| - 1];
        }
      }
      RegexSplitIsTrimmedSplit(t);
      SplitIgnoresLeadingSpace(rest);
      TrimStartFixed(s[..c]);
      TrimAllCons(s[..c], SplitOnComma(rest));
  }

  /** Pieces free of commas stay so once trimmed, and have no edge white space. */
  lemma {:induction false} TrimmedPiecesClean(ps: seq<string>)
    requires forall p :: p in ps ==> ',' !in p
    ensures forall t :: t in TrimAll(ps) ==> ',' !in t && NoEdgeSpace(t)
  {
    if |ps| > 0 {
      assert ps[0] in ps;
      TrimKeepsAbsence(ps[0], ',');
      assert forall p :: p in ps[1..] ==> p in ps;
      TrimmedPiecesClean(ps[1..]);
    }
  }

  /** The tags of a cell are the comma-separated tokens of its trimmed text, each without its
      surrounding white space, in text order, blank ones dropped; so every tag is non-empty,
      free of commas, and has no white space at either end. */
  lemma TagsSpec(cell: Cell)
    ensures Tags(cell) == NonEmpty(TrimAll(SplitOnComma(Trim(JsString(cell)))))
    ensures forall t :: t in Tags(cell) ==> |t| > 0 && ',' !in t && NoEdgeSpace(t)
  {
    var s := Trim(JsString(cell));
    RegexSplitIsTrimmedSplit(s);
    SplitPiecesCommaFree(s);
    TrimmedPiecesClean(SplitOnComma(s));
  }

  /** `String(null)` is `"null"`: a null tags cell gives the single tag `"null"`. */
  lemma NullTags()
    ensures Tags(None) == ["null"]
  {
    var s := "null";
    assert !IsSpace(s[0]) && !IsSpace(s[3]);
    TrimStartFixed(s);
    assert TrimEnd(s) == s;
    assert CommaIndex(s).None? by {
      assert ',' !in s;
    }
    assert NonEmpty([s]) == [s];
  }

  /** One row's annotation. */
  function AnnotationOf<A>(annotation: A, row: Row, ix: ColumnIndex, floorNumber: Cell -> int): (r: Annotation<A>)
    requires ix.time.Some? && ix.time.value < |row|
    requires ix.timeEnd.Some? ==> ix.timeEnd.value < |row|
    requires ix.text.Some? ==> ix.text.value < |row|
    requires ix.tags.Some? ==> ix.tags.value < |row|
    ensures r.annotation == annotation
    ensures r.timeEnd.Some? <==> ix.timeEnd.Some?
    ensures ix.text.None? ==> r.text == ""
    ensures ix.tags.None? ==> r.tags == []
    ensures forall t :: t in r.tags ==> |t| > 0 && ',' !in t
  {
    Annotation(
      annotation,
      GuessSecondsOrMillis(floorNumber(row[ix.time.value])),
      if ix.timeEnd.None? then None else Some(GuessSecondsOrMillis(floorNumber(row[ix.timeEnd.value]))),
      if ix.text.None? then "" else JsString(row[ix.text.value]),
      if ix.tags.None? then [] else Tags(row[ix.tags.value]))
  }

  /** `transformAnnotationResponse`. `floorNumber` stands for `Math.floor(Number(v))`. The
      rejection comes exactly when no column is named `time`, whatever the rows; otherwise
      absent or empty rows give no annotations and each row gives one, reading every column at
      the last field of that name. */
  function TransformAnnotationResponse<A>(annotation: A, table: QueryResult, floorNumber: Cell -> int)
    : (r: Result<seq<Annotation<A>>, string>)
    requires table.rows.Some? && IndexColumns(table.fields).time.Some? ==>
      AllPresent(table.rows.value) && RowsFit(table.fields, table.rows.value)
    ensures r.Failure? <==> forall i :: 0 <= i < |table.fields| ==> table.fields[i].name != "time"
    ensures r.Failure? ==> r.error == MissingTimeMessage
    ensures r.Success? && (table.rows.None? || table.rows.value == []) ==> r.value == []
    ensures r.Success? && table.rows.Some? ==>
      var rows := table.rows.value;
      var ix := IndexColumns(table.fields);
      && |r.value| == |rows|
      && forall i :: 0 <= i < |rows| ==>
        var a := r.value[i];
        var row := rows[i].value;
        && a.annotation == annotation
        && a.time == GuessSecondsOrMillis(floorNumber(row[ix.time.value]))
        && (ix.timeEnd.None? ==> a.timeEnd == None)
        && (ix.timeEnd.Some? ==> a.timeEnd == Some(GuessSecondsOrMillis(floorNumber(row[ix.timeEnd.value]))))
        && (ix.text.None? ==> a.text == "")
        && (ix.text.Some? ==> a.text == JsString(row[ix.text.value]))
        && (ix.tags.None? ==> a.tags == [])
        && (ix.tags.Some? ==> a.tags == Tags(row[ix.tags.value]))
  {
    var ix := IndexColumns(table.fields);
    if ix.time.None? then Failure(MissingTimeMessage)
    else if table.rows.None? || |table.rows.value| == 0 then Success([])
    else
      var rows := table.rows.value;
      Success(seq(|rows|, i requires 0 <= i < |rows| => AnnotationOf(annotation, rows[i].value, ix, floorNumber)))
  }
}
