/** Field listing for the query editor: `_handleRecordFields` flattens `RECORD` columns into
    dotted leaf names and `parseTableFields` filters the leaves by type. */
module Fields {
  import opened Wrappers
  import opened Schema
  import opened Seqs

  /** An entry `{name, type}` of the flattened field list. */
  datatype Leaf = Leaf(name: string, typeName: string)

  /** Number of fields in a schema tree, counting nested ones. */
  function Size(fs: seq<Field>): nat {
    if |fs| == 0 then 0 else 1 + Size(fs[0].fields) + Size(fs[1..])
  }

  /** The in-place renaming `ff.name = prefix + ff.name` applied to each field of `fs`,
      returned as a new sequence. Sub-fields are left as they are. */
  function Renamed(prefix: string, fs: seq<Field>): (r: seq<Field>)
    ensures |r| == |fs| && Size(r) == Size(fs)
    ensures forall i :: 0 <= i < |fs| ==>
      r[i] == Field(prefix + fs[i].name, fs[i].typeName, fs[i].fields)
  {
    if |fs| == 0 then []
    else [Field(prefix + fs[0].name, fs[0].typeName, fs[0].fields)] + Renamed(prefix, fs[1..])
  }

  /** `_handleRecordFields` as written: a top-level field is emitted unless it is a `RECORD`;
      a `RECORD` contributes its children through `HandleChildren`. */
  function HandleRecordFields(fs: seq<Field>): (r: seq<Leaf>)
    ensures forall i :: 0 <= i < |r| ==> r[i].typeName != RecordType
    decreases Size(fs), 1
  {
    if |fs| == 0 then []
    else
      var fl := fs[0];
      (if fl.typeName == RecordType then HandleChildren(fl.name, fl.fields)
       else [Leaf(fl.name, fl.typeName)])
      + HandleRecordFields(fs[1..])
  }

  /** The inner loop of `_handleRecordFields` over the children of the record `parent`: a
      non-record child is emitted as `parent.child`; a record child has its own children
      renamed to `parent.child.grandchild` and is handed back to `HandleRecordFields`. */
  function HandleChildren(parent: string, fs: seq<Field>): (r: seq<Leaf>)
    ensures forall i :: 0 <= i < |r| ==> r[i].typeName != RecordType
    decreases Size(fs), 0
  {
    if |fs| == 0 then []
    else
      var f := fs[0];
      (if f.typeName != RecordType then [Leaf(parent + "." + f.name, f.typeName)]
       else HandleRecordFields(Renamed(parent + "." + f.name + ".", f.fields)))
      + HandleChildren(parent, fs[1..])
  }

  /** Reference definition: the non-record leaves of `fs` in depth-first order, each named by
      its dot-joined path from the top level, after `prefix`. */
  function Flatten(fs: seq<Field>, prefix: string): (r: seq<Leaf>)
    ensures forall i :: 0 <= i < |r| ==> r[i].typeName != RecordType
  {
    if |fs| == 0 then []
    else
      var f := fs[0];
      (if f.typeName == RecordType then Flatten(f.fields, prefix + f.name + ".")
       else [Leaf(prefix + f.name, f.typeName)])
      + Flatten(fs[1..], prefix)
  }

  /** The as-written traversal, started on fields already renamed under `prefix`, produces the
      reference path-named leaves. */
  lemma {:induction false} HandleRenamedIsFlatten(prefix: string, fs: seq<Field>)
    ensures HandleRecordFields(Renamed(prefix, fs)) == Flatten(fs, prefix)
    decreases Size(fs), 1
  {
    if |fs| > 0 {
      var r := Renamed(prefix, fs);
      assert r[1..] == Renamed(prefix, fs[1..]);
      HandleRenamedIsFlatten(prefix, fs[1..]);
      if fs[0].typeName == RecordType {
        HandleChildrenIsFlatten(prefix + fs[0].name, fs[0].fields);
        assert prefix + fs[0].name + "." == (prefix + fs[0].name) + ".";
      }
    }
  }

  /** The children of a record named `parent` flatten under the prefix `parent.`. */
  lemma {:induction false} HandleChildrenIsFlatten(parent: string, fs: seq<Field>)
    ensures HandleChildren(parent, fs) == Flatten(fs, parent + ".")
    decreases Size(fs), 0
  {
    if |fs| > 0 {
      HandleChildrenIsFlatten(parent, fs[1..]);
      var f := fs[0];
      if f.typeName == RecordType {
        HandleRenamedIsFlatten(parent + "." + f.name + ".", f.fields);
      }
    }
  }

  /** Renaming with the empty prefix changes nothing. */
  lemma RenamedEmpty(fs: seq<Field>)
    ensures Renamed("", fs) == fs
  {
    var r := Renamed("", fs);
    forall i | 0 <= i < |fs| ensures r[i] == fs[i] {
      assert "" + fs[i].name == fs[i].name;
    }
  }

  /** `_handleRecordFields` emits exactly the non-record leaves, depth first, each named by the
      dot-joined path from the top level. */
  lemma HandleRecordFieldsIsFlatten(fs: seq<Field>)
    ensures HandleRecordFields(fs) == Flatten(fs, "")
  {
    RenamedEmpty(fs);
    HandleRenamedIsFlatten("", fs);
  }

  function ItemOf(l: Leaf): Item {
    Item(l.name, l.typeName)
  }

  /** How many times `x` occurs in `s`. */
  function CountOf<T(==)>(s: seq<T>, x: T): nat {
    if |s| == 0 then 0 else (if s[0] == x then 1 else 0) + CountOf(s[1..], x)
  }

  lemma {:induction false} CountOfConcat<T>(a: seq<T>, b: seq<T>, x: T)
    ensures CountOf(a + b, x) == CountOf(a, x) + CountOf(b, x)
  {
    if |a| > 0 {
      assert (a + b)[1..] == a[1..] + b;
      CountOfConcat(a[1..], b, x);
    } else {
      assert a + b == b;
    }
  }

  /** One `{text: name, value: type}` per entry of `filter` that equals the leaf's type. */
  function Matching(l: Leaf, filter: seq<string>): (r: seq<Item>)
    ensures CountOf(r, ItemOf(l)) == CountOf(filter, l.typeName)
    ensures forall x :: x != ItemOf(l) ==> CountOf(r, x) == 0
  {
    if |filter| == 0 then []
    else
      var r := (if filter[0] == l.typeName then [ItemOf(l)] else []) + Matching(l, filter[1..]);
      assert forall x :: CountOf(r, x) == CountOf(if filter[0] == l.typeName then [ItemOf(l)] else [], x) + CountOf(Matching(l, filter[1..]), x) by {
        forall x {
          CountOfConcat(if filter[0] == l.typeName then [ItemOf(l)] else [], Matching(l, filter[1..]), x);
        }
      }
      r
  }

  lemma {:induction false} CountPositive<T>(s: seq<T>, x: T)
    ensures CountOf(s, x) > 0 <==> x in s
  {
    if |s| > 0 {
      CountPositive(s[1..], x);
      assert s == [s[0]] + s[1..];
    }
  }

  /** An entry `Matching` lists has its type in the filter. */
  lemma MatchingInFilter(l: Leaf, filter: seq<string>)
    ensures forall x :: x in Matching(l, filter) ==> x.value in filter
  {
    forall x | x in Matching(l, filter) ensures x.value in filter {
      CountPositive(Matching(l, filter), x);
      CountPositive(filter, l.typeName);
    }
  }

  /** The loop of `parseTableFields` over the flattened leaves. */
  function Select(leaves: seq<Leaf>, filter: seq<string>): (r: seq<Item>)
    ensures |filter| == 0 ==> |r| == |leaves|
    ensures |filter| > 0 ==> forall x :: x in r ==> x.value in filter
  {
    if |leaves| == 0 then []
    else
      MatchingInFilter(leaves[0], filter);
      (if |filter| > 0 then Matching(leaves[0], filter) else [ItemOf(leaves[0])])
      + Select(leaves[1..], filter)
  }

  /** `parseTableFields`: absent or empty input gives no entries; otherwise the flattened
      leaves, each kept once per filter entry equal to its type, or all of them when the filter
      is empty. */
  function ParseTableFields(results: Option<seq<Field>>, filter: seq<string>): (r: seq<Item>)
    ensures results.None? || results.value == [] ==> r == []
    ensures results.Some? && |filter| == 0 ==>
      var leaves := Flatten(results.value, "");
      |r| == |leaves| && forall i :: 0 <= i < |r| ==> r[i] == ItemOf(leaves[i])
  {
    if results.None? || |results.value| == 0 then []
    else
      HandleRecordFieldsIsFlatten(results.value);
      SelectAll(HandleRecordFields(results.value));
      Select(HandleRecordFields(results.value), filter)
  }

  /** With an empty filter, every leaf is listed, in order. */
  lemma {:induction false} SelectAll(leaves: seq<Leaf>)
    ensures |Select(leaves, [])| == |leaves|
    ensures forall i :: 0 <= i < |leaves| ==> Select(leaves, [])[i] == ItemOf(leaves[i])
  {
    if |leaves| > 0 {
      SelectAll(leaves[1..]);
    }
  }

  /** With a non-empty filter, an entry occurs once for each pair of a leaf it describes and a
      filter entry equal to that leaf's type. */
  lemma {:induction false} SelectCount(leaves: seq<Leaf>, filter: seq<string>, n: string, t: string)
    requires |filter| > 0
    ensures CountOf(Select(leaves, filter), Item(n, t))
      == CountOf(leaves, Leaf(n, t)) * CountOf(filter, t)
  {
    if |leaves| > 0 {
      SelectCount(leaves[1..], filter, n, t);
      var x, l := Item(n, t), Leaf(n, t);
      var m := Matching(leaves[0], filter);
      var rest := Select(leaves[1..], filter);
      var c, k := CountOf(leaves[1..], l), CountOf(filter, t);
      assert Select(leaves, filter) == m + rest;
      CountOfConcat(m, rest, x);
      assert CountOf(Select(leaves, filter), x) == CountOf(m, x) + c * k;
      if leaves[0] == l {
        assert CountOf(leaves, l) == c + 1;
        assert CountOf(m, x) == k;
        MulSucc(c, k);
      } else {
        assert CountOf(leaves, l) == c;
        assert ItemOf(leaves[0]) != x;
        assert CountOf(m, x) == 0;
      }
    }
  }

  /** A single leaf under a non-empty filter contributes its matching entries. */
  lemma SelectOne(l: Leaf, filter: seq<string>)
    requires |filter| > 0
    ensures Select([l], filter) == Matching(l, filter)
  {
    assert [l][1..] == [];
  }

  /** The selection keeps the order of the leaves: it distributes over concatenation. */
  lemma {:induction false} SelectAppend(a: seq<Leaf>, b: seq<Leaf>, filter: seq<string>)
    ensures Select(a + b, filter) == Select(a, filter) + Select(b, filter)
  {
    if |a| > 0 {
      assert (a + b)[0] == a[0];
      assert (a + b)[1..] == a[1..] + b;
      SelectAppend(a[1..], b, filter);
    } else {
      assert a + b == b;
    }
  }

  /** The reference flattening distributes over concatenation of the field lists. */
  lemma {:induction false} FlattenAppend(a: seq<Field>, b: seq<Field>, prefix: string)
    ensures Flatten(a + b, prefix) == Flatten(a, prefix) + Flatten(b, prefix)
  {
    if |a| > 0 {
      assert (a + b)[0] == a[0];
      assert (a + b)[1..] == a[1..] + b;
      FlattenAppend(a[1..], b, prefix);
    } else {
      assert a + b == b;
    }
  }

  /** `parseTableFields` lists the entries of the leading fields before those of the trailing
      ones, for every filter: the leaf order of the traversal survives the filtering. */
  lemma ParseTableFieldsAppend(a: seq<Field>, b: seq<Field>, filter: seq<string>)
    ensures ParseTableFields(Some(a + b), filter) == ParseTableFields(Some(a), filter) + ParseTableFields(Some(b), filter)
  {
    if |a| == 0 {
      assert a + b == b;
    } else if |b| == 0 {
      assert a + b == a;
    } else {
      HandleRecordFieldsIsFlatten(a + b);
      HandleRecordFieldsIsFlatten(a);
      HandleRecordFieldsIsFlatten(b);
      FlattenAppend(a, b, "");
      SelectAppend(Flatten(a, ""), Flatten(b, ""), filter);
    }
  }

  /** The filtering promise of `parseTableFields`: a listed entry is a leaf whose type is in the
      filter, and each leaf appears once per filter entry equal to its type, so a repeated
      filter entry repeats the leaf. */
  lemma ParseTableFieldsFiltered(results: seq<Field>, filter: seq<string>, n: string, t: string)
    requires |results| > 0 && |filter| > 0
    ensures ParseTableFields(Some(results), filter) == Select(Flatten(results, ""), filter)
    ensures CountOf(ParseTableFields(Some(results), filter), Item(n, t))
      == CountOf(Flatten(results, ""), Leaf(n, t)) * CountOf(filter, t)
    ensures Item(n, t) in ParseTableFields(Some(results), filter)
      <==> Leaf(n, t) in Flatten(results, "") && t in filter
  {
    var leaves := Flatten(results, "");
    var r := ParseTableFields(Some(results), filter);
    HandleRecordFieldsIsFlatten(results);
    assert r == Select(leaves, filter);
    SelectCount(leaves, filter, n, t);
    CountPositive(leaves, Leaf(n, t));
    CountPositive(filter, t);
    CountPositive(r, Item(n, t));
    ProductPositive(CountOf(leaves, Leaf(n, t)), CountOf(filter, t));
  }

  lemma ProductPositive(a: nat, b: nat)
    ensures a * b > 0 <==> a > 0 && b > 0
  {
    if a > 0 && b > 0 {
      assert a * b == (a - 1) * b + b;
    }
  }
}
