/**
  The two amount languages of the converter.

  `IsValidAmount` is `validateAmount`, the regular expression
  `^\d+(\.\d{1,2})?$` that both versions test before converting.
  `PassesFilter` is the newer version's keystroke filter `^\d*\.?\d{0,2}$`,
  which decides whether a typed value is stored at all.

  Both are written as deterministic scans (the run of leading digits, then
  what follows it). `MatchesValidRegex` and `MatchesFilterRegex` give the
  same languages by the concatenation semantics of the regular expressions
  (some way to split the text into the pieces of the pattern), and the
  lemmas below show the two readings agree and how the languages relate.
 */
module AmountGrammar {
  import opened Common

  /** validateAmount: one or more digits, optionally a point and one or two digits. */
  predicate IsValidAmount(s: string) {
    var k := Span(s, IsDigit);
    && 1 <= k
    && (k == |s| || (s[k] == '.' && 2 <= |s| - k <= 3 && AllDigits(s[k + 1..])))
  }

  /** The keystroke filter: any digits, at most one point, at most two digits after it. */
  predicate PassesFilter(s: string) {
    var k := Span(s, IsDigit);
    k == |s| || (s[k] == '.' && |s| - k <= 3 && AllDigits(s[k + 1..]))
  }

  /** `s[..k]` matches `\d+` and `s[k..]` matches `(\.\d{1,2})?`. */
  ghost predicate ValidSplit(s: string, k: int) {
    && 0 < k <= |s|
    && AllDigits(s[..k])
    && (k == |s| || (s[k] == '.' && 1 <= |s[k + 1..]| <= 2 && AllDigits(s[k + 1..])))
  }

  /** The language of `^\d+(\.\d{1,2})?$`. */
  ghost predicate MatchesValidRegex(s: string) {
    exists k :: ValidSplit(s, k)
  }

  /** `s[..i]` matches `\d*`, `s[i..j]` matches `\.?` and `s[j..]` matches `\d{0,2}`. */
  ghost predicate FilterSplit(s: string, i: int, j: int) {
    && 0 <= i <= j <= |s|
    && AllDigits(s[..i])
    && (j == i || (j == i + 1 && s[i] == '.'))
    && |s| - j <= 2
    && AllDigits(s[j..])
  }

  /** The language of `^\d*\.?\d{0,2}$`. */
  ghost predicate MatchesFilterRegex(s: string) {
    exists i, j :: FilterSplit(s, i, j)
  }

  lemma ValidAmountIsRegex(s: string)
    ensures IsValidAmount(s) <==> MatchesValidRegex(s)
  {
    var k := Span(s, IsDigit);
    if IsValidAmount(s) {
      assert ValidSplit(s, k);
    }
    if MatchesValidRegex(s) {
      var j :| ValidSplit(s, j);
      assert forall i :: 0 <= i < j ==> IsDigit(s[..j][i]);
      SpanUnique(s, IsDigit, j);
    }
  }

  lemma FilterIsRegex(s: string)
    ensures PassesFilter(s) <==> MatchesFilterRegex(s)
  {
    var k := Span(s, IsDigit);
    if PassesFilter(s) {
      if k == |s| {
        assert FilterSplit(s, |s|, |s|);
      } else {
        assert FilterSplit(s, k, k + 1);
      }
    }
    if MatchesFilterRegex(s) {
      var i, j :| FilterSplit(s, i, j);
      assert forall n :: 0 <= n < i ==> IsDigit(s[..i][n]);
      forall n | j <= n < |s|
        ensures IsDigit(s[n])
      {
        assert s[j..][n - j] == s[n];
      }
      if j == i {
        SpanUnique(s, IsDigit, |s|);
      } else {
        SpanUnique(s, IsDigit, i);
        assert s[k + 1..] == s[j..];
      }
    }
  }

  /** Every amount the validator accepts can also be stored by the keystroke filter. */
  lemma ValidPassesFilter(s: string)
    ensures IsValidAmount(s) ==> PassesFilter(s)
  {
  }

  /**
    The filter admits exactly three kinds of text that validation rejects:
    the empty text, digits followed by a bare point (including "." itself),
    and a point followed by one or two digits with no whole part.
   */
  lemma FilterGap(s: string)
    ensures PassesFilter(s) && !IsValidAmount(s) <==>
      || s == []
      || (s[|s| - 1] == '.' && AllDigits(s[..|s| - 1]))
      || (s[0] == '.' && 2 <= |s| <= 3 && AllDigits(s[1..]))
  {
    var k := Span(s, IsDigit);
    if s != [] && s[|s| - 1] == '.' && AllDigits(s[..|s| - 1]) {
      forall i | 0 <= i < |s| - 1
        ensures IsDigit(s[i])
      {
        assert s[..|s| - 1][i] == s[i];
      }
      SpanUnique(s, IsDigit, |s| - 1);
    }
    if s != [] && s[0] == '.' && 2 <= |s| <= 3 && AllDigits(s[1..]) {
      SpanUnique(s, IsDigit, 0);
    }
    if PassesFilter(s) && !IsValidAmount(s) && s != [] && k < |s| && |s| - k == 1 {
      assert forall i :: 0 <= i < |s| - 1 ==> IsDigit(s[i]);
      assert AllDigits(s[..|s| - 1]);
    }
  }

  /** The filter is closed under prefixes: deleting from the end never produces a refused text. */
  lemma FilterPrefixClosed(s: string, n: nat)
    requires PassesFilter(s) && n <= |s|
    ensures PassesFilter(s[..n])
  {
    var k := Span(s, IsDigit);
    var t := s[..n];
    if n <= k {
      SpanUnique(t, IsDigit, n);
    } else {
      SpanUnique(t, IsDigit, k);
      assert t[k + 1..] == s[k + 1..n];
    }
  }

  /** Every prefix of a valid amount passes the filter, so a valid amount can be typed left to right. */
  lemma ValidPrefixesPassFilter(s: string, n: nat)
    requires IsValidAmount(s) && n <= |s|
    ensures PassesFilter(s[..n])
  {
    ValidPassesFilter(s);
    FilterPrefixClosed(s, n);
  }

  /**
    The filter is looser than "prefix of a valid amount": a text that starts
    with a point passes it (".5"), yet no valid amount starts with a point.
   */
  lemma PointFirstNeverValid(s: string)
    requires s != [] && s[0] == '.'
    ensures !IsValidAmount(s)
  {
    SpanUnique(s, IsDigit, 0);
  }

  /** Valid amounts contain no whitespace, so their trimmed form is never empty. */
  lemma ValidIsNotBlank(s: string)
    requires IsValidAmount(s)
    ensures Trim(s) != []
  {
    assert IsDigit(s[0]);
  }

  /** Filtered texts contain no whitespace, so only the empty text trims to empty. */
  lemma FilteredBlankIsEmpty(s: string)
    requires PassesFilter(s)
    ensures Trim(s) == [] <==> s == []
  {
    if s != [] {
      assert IsDigit(s[0]) || s[0] == '.';
    }
  }
}
