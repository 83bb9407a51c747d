/** The JavaScript string primitives the parser relies on: white space as `trim` and the
    regular-expression class `\s` see it, `indexOf`, and `substring(0, end)`. */
module Text {
  import opened Wrappers

  /** JavaScript white space: the WhiteSpace and LineTerminator code points. `trim` strips
      exactly these, and `\s` in a regular expression matches exactly these. */
  predicate IsSpace(c: char) {
    || c == '\t' || c == '\n' || c == '\U{000B}' || c == '\U{000C}' || c == '\r' || c == ' '
    || c == '\U{00A0}' || c == '\U{1680}' || ('\U{2000}' <= c <= '\U{200A}')
    || c == '\U{2028}' || c == '\U{2029}' || c == '\U{202F}' || c == '\U{205F}'
    || c == '\U{3000}' || c == '\U{FEFF}'
  }

  /** No white space at either end. */
  predicate NoEdgeSpace(s: string) {
    |s| == 0 || (!IsSpace(s[0]) && !IsSpace(s[|s| - 1]))
  }

  /** `s` with its leading white space removed. */
  function TrimStart(s: string): (r: string)
    ensures |r| <= |s| && r == s[|s| - |r|..]
    ensures |r| == 0 || !IsSpace(r[0])
  {
    if |s| > 0 && IsSpace(s[0]) then TrimStart(s[1..]) else s
  }

  /** `s` with its trailing white space removed. */
  function TrimEnd(s: string): (r: string)
    ensures |r| <= |s| && r == s[..|r|]
    ensures |r| == 0 || !IsSpace(r[|r| - 1])
  {
    if |s| > 0 && IsSpace(s[|s| - 1]) then TrimEnd(s[..|s| - 1]) else s
  }

  /** What `TrimStart` removes is white space. */
  lemma {:induction false} TrimStartDropsSpace(s: string)
    ensures forall i :: 0 <= i < |s| - |TrimStart(s)| ==> IsSpace(s[i])
  {
    if |s| > 0 && IsSpace(s[0]) {
      var t := s[1..];
      TrimStartDropsSpace(t);
      assert TrimStart(s) == TrimStart(t);
      forall i | 0 <= i < |s| - |TrimStart(s)| ensures IsSpace(s[i]) {
        if i > 0 {
          assert i - 1 < |t| - |TrimStart(t)|;
          assert s[i] == t[i - 1];
        }
      }
    }
  }

  /** What `TrimEnd` removes is white space. */
  lemma {:induction false} TrimEndDropsSpace(s: string)
    ensures forall i :: |TrimEnd(s)| <= i < |s| ==> IsSpace(s[i])
  {
    if |s| > 0 && IsSpace(s[|s| - 1]) {
      var t := s[..|s| - 1];
      TrimEndDropsSpace(t);
      forall i | |TrimEnd(s)| <= i < |s| ensures IsSpace(s[i]) {
        if i < |t| {
          assert s[i] == t[i];
        }
      }
    }
  }

  /** `String.prototype.trim`. */
  function Trim(s: string): (r: string)
    ensures NoEdgeSpace(r)
  {
    TrimEnd(TrimStart(s))
  }

  /** The trimmed text is the middle of `s` left once the white space at both ends is
      removed, and what is removed is all white space. */
  lemma TrimIsMiddle(s: string)
    ensures var r := Trim(s); var lead := |s| - |TrimStart(s)|;
      && lead + |r| <= |s| && r == s[lead..lead + |r|]
      && (forall i :: 0 <= i < lead ==> IsSpace(s[i]))
      && (forall i :: lead + |r| <= i < |s| ==> IsSpace(s[i]))
  {
    TrimStartDropsSpace(s);
    TrimIsSlice(s);
    TrimEndInPlace(s);
  }

  /** The trimmed text sits in `s` right after the leading white space. */
  lemma TrimIsSlice(s: string)
    ensures var lead := |s| - |TrimStart(s)|;
      lead + |Trim(s)| <= |s| && Trim(s) == s[lead..lead + |Trim(s)|]
  {
    var t := TrimStart(s);
    var r := TrimEnd(t);
    var lead := |s| - |t|;
    assert r == t[..|r|];
    assert t == s[lead..];
  }

  /** Everything of `s` after the trimmed text is white space. */
  lemma TrimEndInPlace(s: string)
    ensures forall i :: |s| - |TrimStart(s)| + |Trim(s)| <= i < |s| ==> IsSpace(s[i])
  {
    var t := TrimStart(s);
    var lead := |s| - |t|;
    TrimEndDropsSpace(t);
    forall i | lead + |TrimEnd(t)| <= i < |s| ensures IsSpace(s[i]) {
      assert s[i] == t[i - lead];
    }
  }

  /** Trimming only removes white space, so it keeps a text free of `ch` when `ch` is not
      white space. */
  lemma TrimKeepsAbsence(s: string, ch: char)
    requires ch !in s && !IsSpace(ch)
    ensures ch !in Trim(s)
  {
    var t := TrimStart(s);
    assert ch !in t by {
      forall i | 0 <= i < |t| ensures t[i] != ch {
        assert t[i] == s[|s| - |t| + i];
      }
    }
    var r := TrimEnd(t);
    forall i | 0 <= i < |r| ensures r[i] != ch {
      assert r[i] == t[i];
    }
  }

  /** `pat` occurs in `s` starting at index `i`. */
  predicate OccursAt(s: string, pat: string, i: nat) {
    i + |pat| <= |s| && s[i..i + |pat|] == pat
  }

  predicate Contains(s: string, pat: string) {
    exists i :: 0 <= i <= |s| && OccursAt(s, pat, i)
  }

  /** `s.indexOf(pat, i)`, with `None` for JavaScript's -1. */
  function IndexOfFrom(s: string, pat: string, i: nat): (r: Option<nat>)
    requires i <= |s|
    ensures r.Some? ==> i <= r.value <= |s| && OccursAt(s, pat, r.value)
    ensures r.Some? ==> forall j :: i <= j < r.value ==> !OccursAt(s, pat, j)
    ensures r.None? ==> forall j :: i <= j <= |s| ==> !OccursAt(s, pat, j)
    decreases |s| - i
  {
    if OccursAt(s, pat, i) then Some(i)
    else if i == |s| then None
    else IndexOfFrom(s, pat, i + 1)
  }

  /** `s.indexOf(pat)`: the first occurrence of `pat` in `s`. */
  function IndexOf(s: string, pat: string): (r: Option<nat>)
    ensures r.None? <==> !Contains(s, pat)
    ensures r.Some? ==> r.value <= |s| && OccursAt(s, pat, r.value)
    ensures r.Some? ==> forall j :: 0 <= j < r.value ==> !OccursAt(s, pat, j)
  {
    IndexOfFrom(s, pat, 0)
  }

  /** `s.substring(0, end)`: JavaScript clamps `end` into `[0, |s|]`. */
  function Prefix(s: string, end: int): (r: string)
    ensures |r| == if end < 0 then 0 else if end > |s| then |s| else end
    ensures r == s[..|r|]
  {
    if end < 0 then "" else if end > |s| then s else s[..end]
  }

  /** The text before the first occurrence of `pat` does not contain `pat`. */
  lemma BeforeFirstOccurrence(s: string, pat: string)
    requires |pat| > 0 && IndexOf(s, pat).Some?
    ensures !Contains(s[..IndexOf(s, pat).value], pat)
  {
    var k := IndexOf(s, pat).value;
    forall i | 0 <= i <= k && OccursAt(s[..k], pat, i)
      ensures false
    {
      assert s[..k][i..i + |pat|] == s[i..i + |pat|];
      assert OccursAt(s, pat, i);
    }
  }

  /** A prefix of a text that does not contain `pat` does not contain it either. */
  lemma PrefixKeepsAbsence(s: string, pat: string, n: nat)
    requires n <= |s| && !Contains(s, pat)
    ensures !Contains(s[..n], pat)
  {
    forall i | 0 <= i <= n && OccursAt(s[..n], pat, i)
      ensures false
    {
      assert s[..n][i..i + |pat|] == s[i..i + |pat|];
      assert OccursAt(s, pat, i);
    }
  }
}
