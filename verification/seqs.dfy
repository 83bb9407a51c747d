/** Order-preserving deduplication, shared by the bucket list of the time-series format and the
    insertion-ordered `Map` of the table-name normaliser, and the counting step shared by the
    length and multiplicity lemmas. */
module Seqs {

  /** The position of the first occurrence of `x` in `ts`. */
  function FirstIndex(ts: seq<string>, x: string): (r: nat)
    requires x in ts
    ensures r < |ts| && ts[r] == x && forall j :: 0 <= j < r ==> ts[j] != x
  {
    if ts[0] == x then 0 else 1 + FirstIndex(ts[1..], x)
  }

  /** The distinct elements of `ts`, ordered by their first appearance. */
  function Distinct(ts: seq<string>): (r: seq<string>)
    ensures forall x :: x in r <==> x in ts
    ensures forall a, b :: 0 <= a < b < |r| ==> FirstIndex(ts, r[a]) < FirstIndex(ts, r[b])
  {
    if |ts| == 0 then []
    else
      var n := |ts| - 1;
      var d := Distinct(ts[..n]);
      FirstIndexOfPrefix(ts, n);
      if ts[n] in d then d
      else
        assert FirstIndex(ts, ts[n]) == n;
        d + [ts[n]]
  }

  /** An element of a prefix is first found inside that prefix. */
  lemma FirstIndexOfPrefix(ts: seq<string>, n: nat)
    requires n <= |ts|
    ensures forall y :: y in ts[..n] ==> FirstIndex(ts, y) == FirstIndex(ts[..n], y)
  {
    forall y | y in ts[..n] ensures FirstIndex(ts, y) == FirstIndex(ts[..n], y) {
      var k := FirstIndex(ts[..n], y);
      assert ts[k] == y;
    }
  }

  /** Appending an element extends the distinct list only when the element is new. */
  lemma DistinctSnoc(ts: seq<string>, x: string)
    ensures Distinct(ts + [x]) == if x in Distinct(ts) then Distinct(ts) else Distinct(ts) + [x]
  {
    assert (ts + [x])[..|ts|] == ts;
  }

  /** One more group of `v` adds `v` to the count. */
  lemma MulSucc(p: nat, v: nat)
    ensures (p + 1) * v == p * v + v
  {
  }
}
