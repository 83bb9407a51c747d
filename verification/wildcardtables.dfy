/** The table list of a dataset: partitioned tables are marked in their id by `manipulateItem`,
    and `_handleWildCardTables` strips the marker from the text and collapses the date-sharded
    tables of one family into a single `..._YYYYMMDD` wildcard entry. */
module WildcardTables {
  import opened Wrappers
  import opened Text
  import opened Schema
  import opened Seqs
  import opened DateSuffix

  const PartitionedMarker := "__partitioned"
  const DatePlaceholder := "YYYYMMDD"
  const TableKind := "bigquery#table"

  datatype TimePartitioning = TimePartitioning(field: Option<string>)

  /** A table resource as the tables list returns it; `tableId` is `tableReference.tableId`. */
  datatype TableResource = TableResource(kind: string, tableId: string, timePartitioning: Option<TimePartitioning>)

  /** The id `manipulateItem` leaves on a table: a time-partitioned table gets the marker,
      followed by `__` and the partitioning column when one is named. */
  function ShownId(t: TableResource): (r: string)
    ensures |t.tableId| <= |r| && r[..|t.tableId|] == t.tableId
    ensures r != t.tableId <==> t.kind == TableKind && t.timePartitioning.Some?
    ensures r != t.tableId ==> OccursAt(r, PartitionedMarker, |t.tableId|)
    ensures t.kind == TableKind && t.timePartitioning.Some? ==>
      var field := t.timePartitioning.value.field;
      && |r| >= |t.tableId| + |PartitionedMarker|
      && r[|t.tableId| + |PartitionedMarker|..] == (if field.Some? && field.value != "" then "__" + field.value else "")
  {
    if t.kind == TableKind && t.timePartitioning.Some? then
      var field := t.timePartitioning.value.field;
      t.tableId + PartitionedMarker + (if field.Some? && field.value != "" then "__" + field.value else "")
    else
      t.tableId
  }

  /** `text.substring(0, text.indexOf('__partitioned'))`: the text up to the first occurrence of
      the marker, or the whole text when there is none. */
  function StripPartitioned(text: string): (r: string)
    ensures |r| <= |text| && r == text[..|r|]
    ensures !Contains(r, PartitionedMarker)
    ensures !Contains(text, PartitionedMarker) ==> r == text
    ensures Contains(text, PartitionedMarker) ==>
      && OccursAt(text, PartitionedMarker, |r|)
      && forall j :: 0 <= j < |r| ==> !OccursAt(text, PartitionedMarker, j)
  {
    match IndexOf(text, PartitionedMarker)
    case None => text
    case Some(k) =>
      BeforeFirstOccurrence(text, PartitionedMarker);
      text[..k]
  }

  /** The placeholder contains no `d`, the thirteenth character of the marker, so appending it
      cannot create an occurrence of the marker. */
  lemma AppendPlaceholderKeepsAbsence(p: string)
    requires !Contains(p, PartitionedMarker)
    ensures !Contains(p + DatePlaceholder, PartitionedMarker)
  {
    var s := p + DatePlaceholder;
    forall i | 0 <= i <= |s|
      ensures !OccursAt(s, PartitionedMarker, i)
    {
      if i + 13 <= |p| {
        assert s[i..i + 13] == p[i..i + 13];
        assert !OccursAt(p, PartitionedMarker, i);
      } else if i + 13 <= |s| {
        var x := i + 12 - |p|;
        assert 0 <= x < 8 && s[i + 12] == DatePlaceholder[x];
        assert DatePlaceholder[x] != 'd' by {
          assert x == 0 || x == 1 || x == 2 || x == 3 || x == 4 || x == 5 || x == 6 || x == 7;
        }
        assert s[i + 12] != PartitionedMarker[12];
      }
    }
  }

  /** The wildcard name of a dated table: its text minus the last eight characters (clamped at
      the start), followed by the placeholder. */
  function WildcardName(text: string): (r: string)
    ensures |r| >= |DatePlaceholder| && r[|r| - |DatePlaceholder|..] == DatePlaceholder
    ensures |text| >= 8 ==> |r| == |text| && r[..|text| - 8] == text[..|text| - 8]
    ensures |text| < 8 ==> r == DatePlaceholder
    ensures !HasDateSuffix(r)
  {
    var p := Prefix(text, |text| - 8);
    var r := p + DatePlaceholder;
    assert r[|r| - 1] == 'D';
    NoDateSuffixWithoutFinalDigit(r);
    r
  }

  /** A wildcard name ends in the placeholder, so it is not itself dated, and it carries the
      marker only if the text did. */
  lemma WildcardNameClean(text: string)
    ensures !HasDateSuffix(WildcardName(text))
    ensures !Contains(text, PartitionedMarker) ==> !Contains(WildcardName(text), PartitionedMarker)
  {
    var p := Prefix(text, |text| - 8);
    var r := WildcardName(text);
    assert r[|r| - 1] == 'D';
    NoDateSuffixWithoutFinalDigit(r);
    if !Contains(text, PartitionedMarker) {
      PrefixKeepsAbsence(text, PartitionedMarker, |p|);
      AppendPlaceholderKeepsAbsence(p);
    }
  }

  /** The key under which one listed table is filed: the wildcard name for a dated table, its
      value otherwise. */
  function KeyOf(t: Item): (r: string)
    ensures !HasDateSuffix(r)
    ensures HasDateSuffix(t.value) ==> r == WildcardName(StripPartitioned(t.text))
    ensures !HasDateSuffix(t.value) ==> r == t.value
  {
    if HasDateSuffix(t.value) then WildcardName(StripPartitioned(t.text)) else t.value
  }

  /** The text filed with that key. */
  function TextOf(t: Item): (r: string)
    ensures !Contains(r, PartitionedMarker)
    ensures HasDateSuffix(t.value) ==> r == KeyOf(t)
  {
    var text := StripPartitioned(t.text);
    WildcardNameClean(text);
    if HasDateSuffix(t.value) then WildcardName(text) else text
  }

  /** One entry of the insertion-ordered `Map`. */
  datatype Entry = Entry(key: string, value: string)

  function Keys(m: seq<Entry>): (r: seq<string>)
    ensures |r| == |m| && forall i :: 0 <= i < |m| ==> r[i] == m[i].key
  {
    seq(|m|, i requires 0 <= i < |m| => m[i].key)
  }

  predicate DistinctKeys(m: seq<Entry>) {
    forall a, b :: 0 <= a < b < |m| ==> m[a].key != m[b].key
  }

  /** The position of `key` in the map, if it is there. */
  function Find(m: seq<Entry>, key: string): (r: Option<nat>)
    ensures r.None? <==> key !in Keys(m)
    ensures r.Some? ==> r.value < |m| && m[r.value].key == key
  {
    if |m| == 0 then None
    else if m[|m| - 1].key == key then Some(|m| - 1)
    else Find(m[..|m| - 1], key)
  }

  /** `Map.prototype.set`: an existing key keeps its position and takes the new value; a new
      key goes to the end. */
  function Set(m: seq<Entry>, key: string, value: string): (r: seq<Entry>)
    requires DistinctKeys(m)
    ensures DistinctKeys(r)
    ensures key in Keys(m) ==> |r| == |m| && forall i :: 0 <= i < |m| ==> r[i] == (if m[i].key == key then Entry(key, value) else m[i])
    ensures key !in Keys(m) ==> r == m + [Entry(key, value)]
  {
    match Find(m, key)
    case None => m + [Entry(key, value)]
    case Some(k) => m[k := Entry(key, value)]
  }

  /** The entry one listed table is filed as. */
  function FiledAs(t: Item): Entry {
    Entry(KeyOf(t), TextOf(t))
  }

  /** The entries the loop sets, in order. */
  function FiledAll(tables: seq<Item>): (r: seq<Entry>)
    ensures |r| == |tables| && forall i :: 0 <= i < |tables| ==> r[i] == FiledAs(tables[i])
  {
    seq(|tables|, i requires 0 <= i < |tables| => FiledAs(tables[i]))
  }

  /** The map after `Map.set` of every entry of `es` in order. */
  function Build(es: seq<Entry>): (m: seq<Entry>)
    ensures DistinctKeys(m)
    ensures forall i :: 0 <= i < |m| ==> m[i] in es
  {
    if |es| == 0 then []
    else
      var n := |es| - 1;
      var prev := Build(es[..n]);
      assert forall i :: 0 <= i < |prev| ==> prev[i] in es by {
        assert forall e :: e in es[..n] ==> e in es;
      }
      Set(prev, es[n].key, es[n].value)
  }

  /** An entry as the normaliser files it: an undated key and a text without the marker. */
  predicate Clean(e: Entry) {
    !HasDateSuffix(e.key) && !Contains(e.value, PartitionedMarker)
  }

  /** The map after the loop has visited every table of `tables`. */
  function Fill(tables: seq<Item>): (m: seq<Entry>)
    ensures DistinctKeys(m)
    ensures forall i :: 0 <= i < |m| ==> Clean(m[i])
  {
    Build(FiledAll(tables))
  }

  /** `_handleWildCardTables`: the map's entries in insertion order, the key as value and the
      filed text as text. */
  function HandleWildCardTables(tables: seq<Item>): (r: seq<Item>)
    ensures forall a, b :: 0 <= a < b < |r| ==> r[a].value != r[b].value
    ensures forall i :: 0 <= i < |r| ==> !Contains(r[i].text, PartitionedMarker) && !HasDateSuffix(r[i].value)
  {
    var m := Fill(tables);
    var r := seq(|m|, i requires 0 <= i < |m| => Item(m[i].value, m[i].key));
    assert forall i :: 0 <= i < |m| ==> Clean(m[i]);
    r
  }

  /** `parseTables`: every listed table, under the id `manipulateItem` gives it, as both text
      and value, then normalised. A missing or empty list gives no entries. */
  function ParseTables(results: Option<seq<TableResource>>): (r: seq<Item>)
    ensures results.None? || |results.value| == 0 ==> r == []
  {
    if results.None? || |results.value| == 0 then []
    else
      var rs := results.value;
      HandleWildCardTables(seq(|rs|, i requires 0 <= i < |rs| => Item(ShownId(rs[i]), ShownId(rs[i]))))
  }

  // ---------------------------------------------------------------------------------------
  // Reference definitions and the properties of the normaliser

  /** The value of the last entry with `key`, if any entry has it. */
  function LastValue(es: seq<Entry>, key: string): (r: Option<string>)
    ensures r.None? <==> key !in Keys(es)
    ensures r.Some? ==> Entry(key, r.value) in es
  {
    if |es| == 0 then None
    else
      var n := |es| - 1;
      assert Keys(es) == Keys(es[..n]) + [es[n].key];
      if es[n].key == key then Some(es[n].value)
      else
        var r := LastValue(es[..n], key);
        assert r.Some? ==> Entry(key, r.value) in es[..n];
        r
  }

  /** One more entry: the keys grow by its key, the map is set with it, and it is the last
      entry under its key. */
  lemma BuildSnoc(es: seq<Entry>, e: Entry)
    ensures Keys(es + [e]) == Keys(es) + [e.key]
    ensures Build(es + [e]) == Set(Build(es), e.key, e.value)
    ensures forall key :: LastValue(es + [e], key) == if e.key == key then Some(e.value) else LastValue(es, key)
  {
    assert (es + [e])[..|es|] == es;
  }

  /** Setting a key keeps the keys as they were if it is there, and appends it otherwise. */
  lemma SetKeys(m: seq<Entry>, key: string, value: string)
    requires DistinctKeys(m)
    ensures Keys(Set(m, key, value)) == if key in Keys(m) then Keys(m) else Keys(m) + [key]
  {
    if key !in Keys(m) {
      assert Keys(m + [Entry(key, value)]) == Keys(m) + [key];
    }
  }

  /** The map's keys are the distinct keys in order of first insertion. */
  lemma {:induction false} BuildKeys(es: seq<Entry>)
    ensures Keys(Build(es)) == Distinct(Keys(es))
  {
    if |es| > 0 {
      var n := |es| - 1;
      var front, e := es[..n], es[n];
      assert es == front + [e];
      BuildKeys(front);
      BuildSnoc(front, e);
      DistinctSnoc(Keys(front), e.key);
      SetKeys(Build(front), e.key, e.value);
    }
  }

  /** Each key of the map holds the value of the last entry set under it. */
  lemma {:induction false} BuildValues(es: seq<Entry>)
    ensures forall i :: 0 <= i < |Build(es)| ==> LastValue(es, Build(es)[i].key) == Some(Build(es)[i].value)
  {
    if |es| > 0 {
      var n := |es| - 1;
      var front, e := es[..n], es[n];
      assert es == front + [e];
      BuildValues(front);
      BuildSnoc(front, e);
      var prev := Build(front);
      var m := Set(prev, e.key, e.value);
      forall i | 0 <= i < |m|
        ensures LastValue(es, m[i].key) == Some(m[i].value)
      {
        if i < |prev| && prev[i].key != e.key {
          assert m[i] == prev[i];
        } else {
          assert m[i] == e;
        }
      }
    }
  }

  /** Entries with distinct keys build a map equal to themselves. */
  lemma {:induction false} BuildDistinct(es: seq<Entry>)
    requires DistinctKeys(es)
    ensures Build(es) == es
  {
    if |es| > 0 {
      var n := |es| - 1;
      var front, e := es[..n], es[n];
      assert es == front + [e];
      BuildDistinct(front);
      BuildSnoc(front, e);
      assert e.key !in Keys(front);
    }
  }

  /** The map holds the distinct filing keys in order of first insertion, each with the text
      of the last table filed under it. */
  lemma FillSpec(tables: seq<Item>)
    ensures Keys(Fill(tables)) == Distinct(Keys(FiledAll(tables)))
    ensures forall i :: 0 <= i < |Fill(tables)| ==> LastValue(FiledAll(tables), Fill(tables)[i].key) == Some(Fill(tables)[i].value)
  {
    BuildKeys(FiledAll(tables));
    BuildValues(FiledAll(tables));
  }

  /** The output lists each distinct key once, in order of first appearance, with the text of
      the last table filed under it. */
  lemma HandleWildCardTablesSpec(tables: seq<Item>)
    ensures |HandleWildCardTables(tables)| == |Distinct(Keys(FiledAll(tables)))|
    ensures forall i :: 0 <= i < |HandleWildCardTables(tables)| ==>
      HandleWildCardTables(tables)[i].value == Distinct(Keys(FiledAll(tables)))[i]
      && Some(HandleWildCardTables(tables)[i].text) == LastValue(FiledAll(tables), Distinct(Keys(FiledAll(tables)))[i])
  {
    FillSpec(tables);
  }

  /** A list of distinct, undated, unmarked entries passes through the map unchanged. */
  lemma FixedPoint(items: seq<Item>)
    requires forall a, b :: 0 <= a < b < |items| ==> items[a].value != items[b].value
    requires forall i :: 0 <= i < |items| ==> !Contains(items[i].text, PartitionedMarker) && !HasDateSuffix(items[i].value)
    ensures Fill(items) == seq(|items|, i requires 0 <= i < |items| => Entry(items[i].value, items[i].text))
  {
    var es := FiledAll(items);
    assert es == seq(|items|, i requires 0 <= i < |items| => Entry(items[i].value, items[i].text));
    BuildDistinct(es);
  }

  /** Normalising twice is normalising once. */
  lemma Idempotent(tables: seq<Item>)
    ensures HandleWildCardTables(HandleWildCardTables(tables)) == HandleWildCardTables(tables)
  {
    var r := HandleWildCardTables(tables);
    FixedPoint(r);
  }

  /** Two dated tables of one family collapse into one wildcard entry, text and value alike. */
  lemma DatedTablesCollapse(a: Item, b: Item)
    requires HasDateSuffix(a.value) && HasDateSuffix(b.value)
    requires WildcardName(StripPartitioned(a.text)) == WildcardName(StripPartitioned(b.text))
    ensures HandleWildCardTables([a, b]) == [Item(KeyOf(a), KeyOf(a))]
  {
    var key := KeyOf(a);
    assert FiledAs(a) == Entry(key, key);
    assert FiledAs(b) == Entry(key, key) by {
      assert KeyOf(b) == key && TextOf(b) == KeyOf(b);
    }
    SameFilingCollapses(a, b, key);
  }

  /** Two dated tables whose stripped texts differ before their last eight characters are
      different families and stay two entries. */
  lemma DatedTablesKeptApart(a: Item, b: Item)
    requires HasDateSuffix(a.value) && HasDateSuffix(b.value)
    requires |StripPartitioned(a.text)| >= 8 && |StripPartitioned(b.text)| >= 8
    requires var x, y := StripPartitioned(a.text), StripPartitioned(b.text);
      x[..|x| - 8] != y[..|y| - 8]
    ensures |HandleWildCardTables([a, b])| == 2
    ensures HandleWildCardTables([a, b]) == [Item(KeyOf(a), KeyOf(a)), Item(KeyOf(b), KeyOf(b))]
  {
    var ka, kb := KeyOf(a), KeyOf(b);
    assert FiledAs(a) == Entry(ka, ka) && FiledAs(b) == Entry(kb, kb);
    WildcardNamesDiffer(StripPartitioned(a.text), StripPartitioned(b.text));
    DifferentFilingsKept(a, b, ka, kb);
  }

  /** Texts that differ before their last eight characters have different wildcard names. */
  lemma WildcardNamesDiffer(x: string, y: string)
    requires |x| >= 8 && |y| >= 8 && x[..|x| - 8] != y[..|y| - 8]
    ensures WildcardName(x) != WildcardName(y)
  {
    var wx, wy := WildcardName(x), WildcardName(y);
    if |x| == |y| {
      assert wx[..|x| - 8] == x[..|x| - 8] && wy[..|y| - 8] == y[..|y| - 8];
    } else {
      assert |wx| != |wy|;
    }
  }

  /** Two tables filed under different keys, each with its key as text, stay two entries. */
  lemma DifferentFilingsKept(a: Item, b: Item, ka: string, kb: string)
    requires FiledAs(a) == Entry(ka, ka) && FiledAs(b) == Entry(kb, kb) && ka != kb
    ensures HandleWildCardTables([a, b]) == [Item(ka, ka), Item(kb, kb)]
  {
    var es := FiledAll([a, b]);
    assert es[0] == Entry(ka, ka) && es[1] == Entry(kb, kb);
    assert es == [Entry(ka, ka), Entry(kb, kb)];
    BuildDistinct(es);
    assert Fill([a, b]) == es;
  }

  /** Two tables filed as the same entry, whose text is its key, leave that one entry. */
  lemma SameFilingCollapses(a: Item, b: Item, key: string)
    requires FiledAs(a) == Entry(key, key) && FiledAs(b) == Entry(key, key)
    ensures HandleWildCardTables([a, b]) == [Item(key, key)]
  {
    var e := Entry(key, key);
    var filed := FiledAll([a, b]);
    assert filed[0] == e && filed[1] == e;
    assert filed == [e, e];
    BuildRepeated(e);
    assert Fill([a, b]) == [e];
  }

  /** Setting one entry twice leaves one entry. */
  lemma BuildRepeated(e: Entry)
    ensures Build([e, e]) == [e]
  {
    assert [e] + [e] == [e, e];
    assert [] + [e] == [e];
    BuildSnoc([e], e);
    BuildSnoc([], e);
  }

  /** Marking a partitioned table and stripping the marker again gives back the table id, as
      long as the id does not itself contain the marker. */
  lemma StripShownId(t: TableResource)
    requires !Contains(t.tableId, PartitionedMarker)
    ensures StripPartitioned(ShownId(t)) == t.tableId
    ensures Contains(ShownId(t), PartitionedMarker) <==> t.kind == TableKind && t.timePartitioning.Some?
  {
    if t.kind == TableKind && t.timePartitioning.Some? {
      var s := ShownId(t);
      var id := t.tableId;
      assert OccursAt(s, PartitionedMarker, |id|);
      assert s[|id|] == '_' && s[|id| + 1] == '_';
      forall j | 0 <= j < |id| ensures !OccursAt(s, PartitionedMarker, j) {
        if j + 13 <= |id| {
          assert s[j..j + 13] == id[j..j + 13];
          assert !OccursAt(id, PartitionedMarker, j);
        } else {
          var k := |id| - j;
          assert 1 <= k <= 12;
          assert PartitionedMarker[k] != s[j + k] || PartitionedMarker[k + 1] != s[j + k + 1] by {
            assert k == 1 || k == 2 || k == 3 || k == 4 || k == 5 || k == 6 || k == 7 || k == 8 || k == 9 || k == 10 || k == 11 || k == 12;
          }
        }
      }
      assert IndexOf(s, PartitionedMarker) == Some(|id|);
    }
  }

  /** Every entry of the table list shows its value with the partition marker stripped. */
  lemma ParseTablesText(results: Option<seq<TableResource>>)
    ensures forall i :: 0 <= i < |ParseTables(results)| ==> ParseTables(results)[i].text == StripPartitioned(ParseTables(results)[i].value)
  {
    if !(results.None? || |results.value| == 0) {
      var rs := results.value;
      var items := seq(|rs|, i requires 0 <= i < |rs| => Item(ShownId(rs[i]), ShownId(rs[i])));
      var m := Fill(items);
      forall i | 0 <= i < |m| ensures m[i].value == StripPartitioned(m[i].key) {
        var j :| 0 <= j < |items| && FiledAs(items[j]) == m[i];
        FiledTextIsStripped(items[j]);
      }
    }
  }

  /** A table listed with its value as text is filed with the stripped key as text. */
  lemma FiledTextIsStripped(t: Item)
    requires t.text == t.value
    ensures TextOf(t) == StripPartitioned(KeyOf(t))
  {
    if HasDateSuffix(t.value) {
      WildcardNameClean(StripPartitioned(t.text));
    }
  }

  /** A text without the letter `p` cannot contain the marker. */
  lemma NoMarkerWithoutP(s: string)
    requires 'p' !in s
    ensures !Contains(s, PartitionedMarker)
  {
    forall i | 0 <= i <= |s|
      ensures !OccursAt(s, PartitionedMarker, i)
    {
      if i + 13 <= |s| {
        assert PartitionedMarker[2] == 'p';
        assert s[i + 2] in s;
        assert s[i..i + 13][2] == s[i + 2];
      }
    }
  }

  /** An unmarked `events_` table with an eight-character date has the wildcard name
      `events_YYYYMMDD`. */
  lemma EventsWildcardName(text: string)
    requires |text| == 15 && text[..7] == "events_" && 'p' !in text
    ensures StripPartitioned(text) == text
    ensures WildcardName(StripPartitioned(text)) == "events_YYYYMMDD"
  {
    NoMarkerWithoutP(text);
  }

  /** The tables of 2023-01-01 and 2023-01-02 collapse into one `events_YYYYMMDD` entry. */
  lemma CollapseExample()
    ensures HandleWildCardTables([Item("events_20230101", "events_20230101"), Item("events_20230102", "events_20230102")])
      == [Item("events_YYYYMMDD", "events_YYYYMMDD")]
  {
    var x, y := "events_20230101", "events_20230102";
    var w := "events_YYYYMMDD";
    assert HasDateSuffix(x) && HasDateSuffix(y) by {
      AcceptsFirstOfJanuary();
      AcceptsSecondOfJanuary();
    }
    assert WildcardName(StripPartitioned(x)) == w && WildcardName(StripPartitioned(y)) == w by {
      assert 'p' !in x && 'p' !in y;
      assert x[..7] == "events_" && y[..7] == "events_";
      EventsWildcardName(x);
      EventsWildcardName(y);
    }
    DatedTablesCollapse(Item(x, x), Item(y, y));
  }

  /** An unmarked dated table of the family `p` (five characters with the underscore) has
      the wildcard name `p` followed by the placeholder. */
  lemma FamilyOfJanuaryFirst(p: string)
    requires |p| == 5 && p[4] == '_' && 'p' !in p
    ensures HasDateSuffix(p + "20230101")
    ensures StripPartitioned(p + "20230101") == p + "20230101"
    ensures WildcardName(StripPartitioned(p + "20230101")) == p + DatePlaceholder
    ensures FiledAs(Item(p + "20230101", p + "20230101")) == Entry(p + DatePlaceholder, p + DatePlaceholder)
  {
    var x := p + "20230101";
    var t := x[5..];
    assert t == "20230101";
    assert Year(t[..4]) by { assert t[..4] == "2023"; }
    assert ShortMonth(t[4..6]) by { assert t[4..6] == "01"; }
    assert ShortDay(t[6..]) by { assert t[6..] == "01"; }
    assert TailOfLength(x, 8);
    assert 'p' !in x by { assert forall c :: c in x ==> c in p || c in "20230101"; }
    NoMarkerWithoutP(x);
    var w := WildcardName(x);
    assert w[..5] == x[..5] == p;
    assert w == w[..5] + w[5..];
  }

  /** Tables of two families dated the same day stay apart, each under its own wildcard name. */
  lemma FamiliesKept(p: string, q: string)
    requires |p| == 5 && p[4] == '_' && 'p' !in p
    requires |q| == 5 && q[4] == '_' && 'p' !in q
    requires p != q
    ensures HandleWildCardTables([Item(p + "20230101", p + "20230101"), Item(q + "20230101", q + "20230101")])
      == [Item(p + DatePlaceholder, p + DatePlaceholder), Item(q + DatePlaceholder, q + DatePlaceholder)]
  {
    FamilyOfJanuaryFirst(p);
    FamilyOfJanuaryFirst(q);
    assert p + DatePlaceholder != q + DatePlaceholder by {
      assert (p + DatePlaceholder)[..5] == p && (q + DatePlaceholder)[..5] == q;
    }
    DifferentFilingsKept(Item(p + "20230101", p + "20230101"), Item(q + "20230101", q + "20230101"),
      p + DatePlaceholder, q + DatePlaceholder);
  }

  /** `logs_20230101` and `data_20230101` stay two entries, `logs_YYYYMMDD` and
      `data_YYYYMMDD`. */
  lemma FamiliesKeptExample()
    ensures HandleWildCardTables([Item("logs_20230101", "logs_20230101"), Item("data_20230101", "data_20230101")])
      == [Item("logs_YYYYMMDD", "logs_YYYYMMDD"), Item("data_YYYYMMDD", "data_YYYYMMDD")]
  {
    assert "logs_20230101" == "logs_" + "20230101" && "data_20230101" == "data_" + "20230101";
    assert "logs_YYYYMMDD" == "logs_" + DatePlaceholder && "data_YYYYMMDD" == "data_" + DatePlaceholder;
    assert "logs_" != "data_" by { assert "logs_"[0] != "data_"[0]; }
    FamiliesKept("logs_", "data_");
  }

  /** February 30 and the 29th of a common February are not dates to the pattern, so those
      tables stay apart under their own names. */
  lemma KeptExample()
    ensures HandleWildCardTables([Item("events_20230230", "events_20230230"), Item("events_20230229", "events_20230229")])
      == [Item("events_20230230", "events_20230230"), Item("events_20230229", "events_20230229")]
  {
    var x, y := "events_20230230", "events_20230229";
    KeptTablesClean();
    FixedPoint([Item(x, x), Item(y, y)]);
  }

  /** The two tables of `KeptExample` are undated, unmarked and distinct. */
  lemma KeptTablesClean()
    ensures !HasDateSuffix("events_20230230") && !HasDateSuffix("events_20230229")
    ensures !Contains("events_20230230", PartitionedMarker) && !Contains("events_20230229", PartitionedMarker)
    ensures "events_20230230" != "events_20230229"
  {
    var x, y := "events_20230230", "events_20230229";
    RejectsFebruaryThirtieth();
    RejectsCommonLeapDay();
    assert 'p' !in x && 'p' !in y;
    NoMarkerWithoutP(x);
    NoMarkerWithoutP(y);
    assert x[14] != y[14];
  }
}
