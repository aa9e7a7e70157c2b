/**
 * The two string operations of Rust's standard library that the front-matter
 * loop relies on: `str::trim` (deciding whether a line is a delimiter) and
 * `str::trim_end_matches` (deriving the output stem from a file name).
 */
module Text {

  /** Rust's `char::is_whitespace`: the characters with the Unicode White_Space property. */
  predicate IsWhitespace(c: char) {
    || ('\t' <= c <= '\r')
    || c == ' '
    || c == '\U{85}'
    || c == '\U{A0}'
    || c == '\U{1680}'
    || ('\U{2000}' <= c <= '\U{200A}')
    || c == '\U{2028}'
    || c == '\U{2029}'
    || c == '\U{202F}'
    || c == '\U{205F}'
    || c == '\U{3000}'
  }

  /** Every character of `s` from index `lo` up to (not including) `hi` is whitespace. */
  predicate BlankBetween(s: string, lo: int, hi: int) {
    forall k :: lo <= k < hi && 0 <= k < |s| ==> IsWhitespace(s[k])
  }

  /**
   * The scan of `str::trim_start` from index `i`: the first index at or after
   * `i` that holds no whitespace, or `|s|`.
   */
  function SkipLeading(s: string, i: nat): (j: nat)
    requires i <= |s|
    ensures i <= j <= |s|
    ensures BlankBetween(s, i, j)
    ensures j == |s| || !IsWhitespace(s[j])
    decreases |s| - i
  {
    if i < |s| && IsWhitespace(s[i]) then SkipLeading(s, i + 1) else i
  }

  /**
   * The scan of `str::trim_end` from index `j` down to `lo`: the smallest
   * index `r` such that everything from `r` to `j` is whitespace.
   */
  function SkipTrailing(s: string, lo: nat, j: nat): (r: nat)
    requires lo <= j <= |s|
    ensures lo <= r <= j
    ensures BlankBetween(s, r, j)
    ensures r == lo || !IsWhitespace(s[r - 1])
    decreases j
  {
    if lo < j && IsWhitespace(s[j - 1]) then SkipTrailing(s, lo, j - 1) else j
  }

  /**
   * `str::trim`: the infix of `s` left once the whitespace at both ends is
   * removed; it neither starts nor ends with whitespace.
   */
  function Trim(s: string): (r: string)
    ensures |r| <= |s|
    ensures r == [] || (!IsWhitespace(r[0]) && !IsWhitespace(r[|r| - 1]))
  {
    var i := SkipLeading(s, 0);
    s[i..SkipTrailing(s, i, |s|)]
  }

  /**
   * What `Trim` removes is whitespace on either side of the infix it keeps:
   * the result sits at index `i` of `s`, after blank text and before blank text.
   */
  lemma TrimIsInfix(s: string) returns (i: nat)
    ensures i + |Trim(s)| <= |s| && s[i..i + |Trim(s)|] == Trim(s)
    ensures BlankBetween(s, 0, i) && BlankBetween(s, i + |Trim(s)|, |s|)
  {
    i := SkipLeading(s, 0);
  }

  lemma {:induction false} SkipLeadingStops(s: string, i: nat, j: nat)
    requires i <= j < |s| && BlankBetween(s, i, j) && !IsWhitespace(s[j])
    ensures SkipLeading(s, i) == j
    decreases j - i
  {
    if i < j {
      SkipLeadingStops(s, i + 1, j);
    }
  }

  lemma {:induction false} SkipTrailingStops(s: string, lo: nat, r: nat, j: nat)
    requires lo < r <= j <= |s| && BlankBetween(s, r, j) && !IsWhitespace(s[r - 1])
    ensures SkipTrailing(s, lo, j) == r
    decreases j
  {
    if r < j {
      SkipTrailingStops(s, lo, r, j - 1);
    }
  }

  /**
   * The converse of `TrimIsInfix`: a text that neither starts nor ends with
   * whitespace, padded with whitespace on both sides, trims to itself.
   */
  lemma TrimPadded(a: string, m: string, b: string)
    requires BlankBetween(a, 0, |a|) && BlankBetween(b, 0, |b|)
    requires m != [] && !IsWhitespace(m[0]) && !IsWhitespace(m[|m| - 1])
    ensures Trim(a + m + b) == m
  {
    var s := a + m + b;
    var j := |a| + |m|;
    assert s[|a|] == m[0] && s[j - 1] == m[|m| - 1];
    assert BlankBetween(s, 0, |a|) by {
      forall k | 0 <= k < |a| ensures s[k] == a[k] { }
    }
    assert BlankBetween(s, j, |s|) by {
      forall k | j <= k < |s| ensures s[k] == b[k - j] { }
    }
    SkipLeadingStops(s, 0, |a|);
    SkipTrailingStops(s, |a|, j, |s|);
    assert s[|a|..j] == m;
  }

  /** A text that neither starts nor ends with whitespace is its own trim. */
  lemma TrimOfInner(m: string)
    requires m != [] && !IsWhitespace(m[0]) && !IsWhitespace(m[|m| - 1])
    ensures Trim(m) == m
  {
    TrimPadded([], m, []);
    assert [] + m + [] == m;
  }

  /** `s` ends with `suffix` (Rust's `str::ends_with`). */
  predicate EndsWith(s: string, suffix: string) {
    |suffix| <= |s| && s[|s| - |suffix|..] == suffix
  }

  /** `k` copies of `p`, one after the other. */
  function Repeat(p: string, k: nat): string
  {
    if k == 0 then [] else Repeat(p, k - 1) + p
  }

  /**
   * `str::trim_end_matches` with a string pattern: removes `pat` from the end
   * of `s` as long as `s` ends with it. An empty pattern leaves `s` unchanged.
   */
  function TrimEndMatches(s: string, pat: string): (r: string)
    ensures |r| <= |s| && r == s[..|r|]
    decreases |s|
  {
    if pat != [] && EndsWith(s, pat) then TrimEndMatches(s[..|s| - |pat|], pat) else s
  }

  /** One trailing copy of the pattern is removed and trimming continues. */
  lemma TrimEndMatchesDropsOne(u: string, pat: string)
    requires pat != []
    ensures TrimEndMatches(u + pat, pat) == TrimEndMatches(u, pat)
  {
    var s := u + pat;
    assert s[|s| - |pat|..] == pat && s[..|s| - |pat|] == u;
  }

  /** The stem does not end with a non-empty pattern. */
  lemma {:induction false} TrimEndMatchesNoTrailingPattern(s: string, pat: string)
    requires pat != []
    ensures !EndsWith(TrimEndMatches(s, pat), pat)
    decreases |s|
  {
    if EndsWith(s, pat) {
      TrimEndMatchesNoTrailingPattern(s[..|s| - |pat|], pat);
    }
  }

  /** No copies of the pattern add nothing. */
  lemma RepeatZero(t: string, pat: string)
    ensures t + Repeat(pat, 0) == t
  {
  }

  /** One more copy of the pattern at the end. */
  lemma RepeatAppend(t: string, pat: string, j: nat)
    ensures (t + Repeat(pat, j)) + pat == t + Repeat(pat, j + 1)
  {
  }

  /** The last of `j + 1` trailing copies of the pattern is removed and trimming continues. */
  lemma TrimEndMatchesDropsRepeat(t: string, pat: string, j: nat)
    requires pat != []
    ensures TrimEndMatches(t + Repeat(pat, j + 1), pat) == TrimEndMatches(t + Repeat(pat, j), pat)
  {
    RepeatAppend(t, pat, j);
    TrimEndMatchesDropsOne(t + Repeat(pat, j), pat);
  }

  /** The name is the stem followed by `k` copies of the pattern, for some `k`. */
  lemma {:induction false} TrimEndMatchesStem(s: string, pat: string) returns (k: nat)
    ensures s == TrimEndMatches(s, pat) + Repeat(pat, k)
    decreases |s|
  {
    if pat != [] && EndsWith(s, pat) {
      var u := s[..|s| - |pat|];
      assert s == u + pat;
      var j := TrimEndMatchesStem(u, pat);
      TrimEndMatchesDropsOne(u, pat);
      RepeatAppend(TrimEndMatches(u, pat), pat, j);
      k := j + 1;
    } else {
      k := 0;
      assert s + [] == s;
    }
  }

  /** Appending copies of a non-empty pattern does not change the stem. */
  lemma {:induction false} TrimEndMatchesAppendRepeat(t: string, pat: string, k: nat)
    requires pat != []
    ensures TrimEndMatches(t + Repeat(pat, k), pat) == TrimEndMatches(t, pat)
  {
    if k == 0 {
      TrimEndMatchesAppendNone(t, pat);
    } else {
      var j := k - 1;
      assert j + 1 == k;
      TrimEndMatchesDropsRepeat(t, pat, j);
      TrimEndMatchesAppendRepeat(t, pat, j);
    }
  }

  lemma TrimEndMatchesAppendNone(t: string, pat: string)
    ensures TrimEndMatches(t + Repeat(pat, 0), pat) == TrimEndMatches(t, pat)
  {
    RepeatZero(t, pat);
  }

  /**
   * The stem is determined by the two properties above: whenever the name is
   * some `t` that does not end with `pat`, followed by copies of `pat`, the
   * result is `t`.
   */
  lemma TrimEndMatchesUnique(t: string, pat: string, k: nat)
    requires pat != [] && !EndsWith(t, pat)
    ensures TrimEndMatches(t + Repeat(pat, k), pat) == t
  {
    TrimEndMatchesAppendRepeat(t, pat, k);
    TrimEndMatchesNoSuffix(t, pat);
  }

  /** A name that does not end with the pattern is returned unchanged. */
  lemma TrimEndMatchesNoSuffix(s: string, pat: string)
    requires !EndsWith(s, pat)
    ensures TrimEndMatches(s, pat) == s
  {
  }

  /** Trimming twice gives the same stem as trimming once. */
  lemma TrimEndMatchesIdempotent(s: string, pat: string)
    ensures TrimEndMatches(TrimEndMatches(s, pat), pat) == TrimEndMatches(s, pat)
  {
    var _ := TrimEndMatchesStem(s, pat);
  }

  /** A name whose last character differs from the pattern's does not end with it. */
  lemma LastCharDiffers(t: string, pat: string)
    requires t != [] && pat != [] && t[|t| - 1] != pat[|pat| - 1]
    ensures !EndsWith(t, pat)
  {
    if |pat| <= |t| {
      assert t[|t| - |pat|..][|pat| - 1] == t[|t| - 1];
    }
  }

  /** The output stem of a Markdown source. */
  lemma StemOfMarkdownName()
    ensures TrimEndMatches("source_mds/file_02.md", ".md") == "source_mds/file_02"
  {
    var u := "source_mds/file_02";
    assert u + ".md" == "source_mds/file_02.md";
    TrimEndMatchesDropsOne(u, ".md");
    LastCharDiffers(u, ".md");
  }

  /** Every trailing copy of the extension goes, not just the last one. */
  lemma StemOfDoubledExtension()
    ensures TrimEndMatches("notes.md.md", ".md") == "notes"
  {
    var u := "notes";
    assert u + ".md" + ".md" == "notes.md.md";
    TrimEndMatchesDropsOne(u + ".md", ".md");
    TrimEndMatchesDropsOne(u, ".md");
    LastCharDiffers(u, ".md");
  }

  /** A name with another extension keeps it. */
  lemma StemOfOtherExtension()
    ensures TrimEndMatches("readme.mdx", ".md") == "readme.mdx"
  {
    LastCharDiffers("readme.mdx", ".md");
  }
}
