/** The pattern that recognises a sharded BigQuery table by the date at the end of its id:
    an underscore followed by one of three date shapes, anchored at the end of the id. */
module DateSuffix {

  predicate IsDigit(c: char) {
    '0' <= c <= '9'
  }

  /** `20\d{2}`: a year of this century. */
  predicate Year(y: string) {
    |y| == 4 && y[..2] == "20" && IsDigit(y[2]) && IsDigit(y[3])
  }

  /** A month with 31 days followed by day 31. */
  predicate Day31(t: string) {
    |t| == 4
    && ((t[0] == '0' && t[1] in "13578") || (t[0] == '1' && t[1] in "02"))
    && t[2..] == "31"
  }

  /** Any month but February followed by day 29 or 30. The character class of the second
      month digit is written `[1,3-9]`, so it also admits a comma. */
  predicate Day29Or30(t: string) {
    |t| == 4
    && ((t[0] == '0' && (t[1] == '1' || t[1] == ',' || '3' <= t[1] <= '9')) || (t[0] == '1' && '0' <= t[1] <= '2'))
    && (t[2..] == "29" || t[2..] == "30")
  }

  /** February 29 of the years 2004, 2008, ..., 2096: the two-digit year must be a non-zero
      multiple of four, so 2000 does not qualify. */
  predicate LeapDay(t: string) {
    |t| == 8 && t[..2] == "20"
    && ((t[2] == '0' && t[3] in "48") || (t[2] in "2468" && t[3] in "048") || (t[2] in "13579" && t[3] in "26"))
    && t[4..] == "0229"
  }

  /** `0?[1-9]|1[0-2]`: a month of one or two digits. */
  predicate ShortMonth(m: string) {
    (|m| == 1 && '1' <= m[0] <= '9')
    || (|m| == 2 && m[0] == '0' && '1' <= m[1] <= '9')
    || (|m| == 2 && m[0] == '1' && '0' <= m[1] <= '2')
  }

  /** `0?[1-9]|1\d|2[0-8]`: a day up to 28, of one or two digits. */
  predicate ShortDay(d: string) {
    (|d| == 1 && '1' <= d[0] <= '9')
    || (|d| == 2 && ((d[0] == '0' && '1' <= d[1] <= '9') || (d[0] == '1' && IsDigit(d[1])) || (d[0] == '2' && '0' <= d[1] <= '8')))
  }

  /** A year, a short month and a short day; the month takes one or two characters. */
  predicate ShortDate(t: string) {
    |t| >= 6 && Year(t[..4])
    && ((ShortMonth(t[4..5]) && ShortDay(t[5..])) || (ShortMonth(t[4..6]) && ShortDay(t[6..])))
  }

  /** The three alternatives after the underscore, running to the end of the id. */
  predicate DateTail(t: string)
    ensures DateTail(t) ==> 6 <= |t| <= 8 && IsDigit(t[|t| - 1])
  {
    (|t| == 8 && Year(t[..4]) && (Day31(t[4..]) || Day29Or30(t[4..]))) || LeapDay(t) || ShortDate(t)
  }

  /** The pattern as a regular expression defines it: some underscore is followed by a date
      tail that ends the id. The negative lookahead for a digit before the end anchor holds
      trivially there. */
  predicate MatchesDatePattern(value: string) {
    exists i :: 0 <= i < |value| && value[i] == '_' && DateTail(value[i + 1..])
  }

  /** The underscore sits `n + 1` characters from the end and a date tail of `n` characters
      follows it. */
  predicate TailOfLength(value: string, n: nat) {
    n < |value| && value[|value| - n - 1] == '_' && DateTail(value[|value| - n..])
  }

  /** The pattern test as the normaliser applies it. A date tail has six to eight characters,
      so only three underscore positions can match; `PatternIsDateSuffix` proves this is the
      language of the pattern. */
  predicate HasDateSuffix(value: string) {
    TailOfLength(value, 6) || TailOfLength(value, 7) || TailOfLength(value, 8)
  }

  lemma PatternIsDateSuffix(value: string)
    ensures MatchesDatePattern(value) <==> HasDateSuffix(value)
  {
    if MatchesDatePattern(value) {
      PatternAtTail(value);
    }
    if HasDateSuffix(value) {
      TailMatchesPattern(value);
    }
  }

  /** The underscore the pattern matches is one of the three candidates. */
  lemma PatternAtTail(value: string)
    requires MatchesDatePattern(value)
    ensures HasDateSuffix(value)
  {
    var i :| 0 <= i < |value| && value[i] == '_' && DateTail(value[i + 1..]);
    var t := value[i + 1..];
    var n := |value| - i - 1;
    assert |t| == n && 6 <= n <= 8;
    assert value[|value| - n..] == t;
    assert TailOfLength(value, n);
    assert n == 6 || n == 7 || n == 8;
  }

  /** Each candidate underscore is a witness of the pattern. */
  lemma TailMatchesPattern(value: string)
    requires HasDateSuffix(value)
    ensures MatchesDatePattern(value)
  {
    var n := if TailOfLength(value, 6) then 6 else if TailOfLength(value, 7) then 7 else 8;
    var i := |value| - n - 1;
    assert value[i + 1..] == value[|value| - n..];
    assert value[i] == '_' && DateTail(value[i + 1..]);
  }

  /** An id whose last character is not a digit has no date suffix. */
  lemma NoDateSuffixWithoutFinalDigit(value: string)
    requires |value| > 0 && !IsDigit(value[|value| - 1])
    ensures !HasDateSuffix(value)
  {
    if 6 < |value| {
      var t := value[|value| - 6..];
      assert t[|t| - 1] == value[|value| - 1];
    }
    if 7 < |value| {
      var t := value[|value| - 7..];
      assert t[|t| - 1] == value[|value| - 1];
    }
    if 8 < |value| {
      var t := value[|value| - 8..];
      assert t[|t| - 1] == value[|value| - 1];
    }
  }

  /** 2023-01-01 is recognised. */
  lemma AcceptsFirstOfJanuary()
    ensures HasDateSuffix("events_20230101")
  {
    var t := "events_20230101"[7..];
    assert t == "20230101";
    assert Year(t[..4]) by { assert t[..4] == "2023"; }
    assert ShortMonth(t[4..6]) by { assert t[4..6] == "01"; }
    assert ShortDay(t[6..]) by { assert t[6..] == "01"; }
    assert TailOfLength("events_20230101", 8);
  }

  /** 2023-01-02 is recognised. */
  lemma AcceptsSecondOfJanuary()
    ensures HasDateSuffix("events_20230102")
  {
    var t := "events_20230102"[7..];
    assert t == "20230102";
    assert Year(t[..4]) by { assert t[..4] == "2023"; }
    assert ShortMonth(t[4..6]) by { assert t[4..6] == "01"; }
    assert ShortDay(t[6..]) by { assert t[6..] == "02"; }
    assert TailOfLength("events_20230102", 8);
  }

  /** February 29 of the leap year 2024 is recognised. */
  lemma AcceptsLeapDay()
    ensures HasDateSuffix("events_20240229")
  {
    var t := "events_20240229"[7..];
    assert t == "20240229";
    assert LeapDay(t) by {
      assert t[..2] == "20" && t[4..] == "0229";
    }
    assert TailOfLength("events_20240229", 8);
  }

  /** February 30 is not recognised. */
  lemma RejectsFebruaryThirtieth()
    ensures !HasDateSuffix("events_20230230")
  {
    var t := "events_20230230"[7..];
    assert t == "20230230";
    assert t[4..][1] == '2' && t[4..][3] == '0' && t[4..5][0] == '0' && t[6..][0] == '3';
  }

  /** February 29 of a common year is not recognised. */
  lemma RejectsCommonLeapDay()
    ensures !HasDateSuffix("events_20230229")
  {
    var t := "events_20230229"[7..];
    assert t == "20230229";
    assert t[3] == '3' && t[4..][1] == '2' && t[4..5][0] == '0' && t[6..][1] == '9';
  }

  /** February 29 of 2000 is not recognised, although 2000 is a leap year. */
  lemma RejectsLeapDayOf2000()
    ensures !HasDateSuffix("events_20000229")
  {
    var t := "events_20000229"[7..];
    assert t == "20000229";
    assert t[3] == '0' && t[4..][1] == '2' && t[4..5][0] == '0' && t[6..][1] == '9';
  }

  /** The short alternative also accepts a six-character tail. */
  lemma AcceptsShortTail()
    ensures HasDateSuffix("events_202311")
  {
    var t := "events_202311"[7..];
    assert t == "202311";
    assert Year(t[..4]) by { assert t[..4] == "2023"; }
    assert t[4..5] == "1" && t[5..] == "1";
    assert TailOfLength("events_202311", 6);
  }

  /** The month class of the 29th/30th alternative accepts a comma. */
  lemma AcceptsCommaMonth()
    ensures HasDateSuffix("events_20230,29")
  {
    var t := "events_20230,29"[7..];
    assert t == "20230,29";
    assert Year(t[..4]) by { assert t[..4] == "2023"; }
    assert t[4..] == "0,29" && t[4..][2..] == "29";
    assert TailOfLength("events_20230,29", 8);
  }
}
