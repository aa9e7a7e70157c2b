/**
 * What the line loop of `read_file_data` extracts from one file, stated
 * declaratively. A line is a delimiter when its trimmed text is `---`; the
 * YAML segment holds the other lines seen after exactly one delimiter, the
 * Markdown segment those seen after exactly two, each as the untrimmed line
 * followed by a newline.
 */
module FrontMatter {
  import opened Text

  /** The test `line.trim() == "---"`. */
  predicate IsDelimiter(line: string) {
    Trim(line) == "---"
  }

  /** A line together with the outcome of the delimiter test on it. */
  datatype Line = Line(text: string, delimiter: bool)

  function Classify(line: string): Line {
    Line(line, IsDelimiter(line))
  }

  function ClassifyAll(lines: seq<string>): seq<Line> {
    seq(|lines|, i requires 0 <= i < |lines| => Classify(lines[i]))
  }

  /** The texts of the lines. */
  function Texts(ls: seq<Line>): seq<string> {
    seq(|ls|, i requires 0 <= i < |ls| => ls[i].text)
  }

  /** The number of delimiter lines among the first `j` lines. */
  function Count(ls: seq<Line>, j: nat): nat
    requires j <= |ls|
  {
    if j == 0 then 0 else Count(ls, j - 1) + (if ls[j - 1].delimiter then 1 else 0)
  }

  /**
   * Among the first `j` lines, the texts of the non-delimiter lines preceded
   * by exactly `n` delimiters, in their original order.
   */
  function Picked(ls: seq<Line>, j: nat, n: int): seq<string>
    requires j <= |ls|
  {
    if j == 0 then []
    else Picked(ls, j - 1, n) + (if !ls[j - 1].delimiter && Count(ls, j - 1) == n then [ls[j - 1].text] else [])
  }

  /** The lines joined, each followed by `"\n"`. */
  function Render(texts: seq<string>): string {
    if texts == [] then "" else Render(texts[..|texts| - 1]) + texts[|texts| - 1] + "\n"
  }

  /** The two text buffers the loop fills for one file. */
  datatype Segments = Segments(yaml: string, markdown: string)

  function SegmentsOf(ls: seq<Line>): Segments {
    Segments(Render(Picked(ls, |ls|, 1)), Render(Picked(ls, |ls|, 2)))
  }

  /** The segments of one file: YAML after the first delimiter, Markdown after the second. */
  function Split(lines: seq<string>): Segments {
    SegmentsOf(ClassifyAll(lines))
  }

  /** The number of delimiter lines in a file. */
  function DelimiterCount(lines: seq<string>): nat {
    Count(ClassifyAll(lines), |lines|)
  }

  lemma RenderAppend(texts: seq<string>, t: string)
    ensures Render(texts + [t]) == Render(texts) + t + "\n"
  {
    assert (texts + [t])[..|texts|] == texts;
  }

  lemma RenderSingle(t: string)
    ensures Render([t]) == t + "\n"
  {
    assert [t][..0] == [];
  }

  lemma ClassifyAllAppend(a: seq<string>, b: seq<string>)
    ensures ClassifyAll(a + b) == ClassifyAll(a) + ClassifyAll(b)
  {
    assert forall i :: 0 <= i < |a + b| ==> (a + b)[i] == if i < |a| then a[i] else b[i - |a|];
  }

  lemma TextsOfClassified(lines: seq<string>, a: nat, b: nat)
    requires a <= b <= |lines|
    ensures Texts(ClassifyAll(lines)[a..b]) == lines[a..b]
  {
  }

  /**
   * One pass of the loop body: a delimiter bumps the count and is appended
   * nowhere; any other line is appended, with a newline, to the segment whose
   * number equals the count of delimiters before it.
   */
  lemma StepLine(ls: seq<Line>, j: nat, n: int)
    requires j < |ls|
    ensures Count(ls, j + 1) == Count(ls, j) + (if ls[j].delimiter then 1 else 0)
    ensures Render(Picked(ls, j + 1, n)) ==
              if !ls[j].delimiter && Count(ls, j) == n
              then Render(Picked(ls, j, n)) + ls[j].text + "\n"
              else Render(Picked(ls, j, n))
  {
    var p := Picked(ls, j, n);
    if !ls[j].delimiter && Count(ls, j) == n {
      RenderAppend(p, ls[j].text);
    } else {
      assert p + [] == p;
    }
  }

  /** `StepLine` stated on the lines themselves, with the delimiter test written as the loop writes it. */
  lemma StepLines(lines: seq<string>, j: nat, n: int)
    requires j < |lines|
    ensures Count(ClassifyAll(lines), j + 1) == Count(ClassifyAll(lines), j) + (if Trim(lines[j]) == "---" then 1 else 0)
    ensures Render(Picked(ClassifyAll(lines), j + 1, n)) ==
              if Trim(lines[j]) != "---" && Count(ClassifyAll(lines), j) == n
              then Render(Picked(ClassifyAll(lines), j, n)) + lines[j] + "\n"
              else Render(Picked(ClassifyAll(lines), j, n))
  {
    StepLine(ClassifyAll(lines), j, n);
  }

  /** A delimiter line bumps the count and adds to no segment. */
  lemma DelimiterLine(ls: seq<Line>, j: nat, n: int)
    requires j < |ls| && ls[j].delimiter
    ensures Count(ls, j + 1) == Count(ls, j) + 1
    ensures Picked(ls, j + 1, n) == Picked(ls, j, n)
  {
    assert Picked(ls, j + 1, n) == Picked(ls, j, n) + [];
  }

  /** Every picked text is that of a non-delimiter line among the first `j`. */
  lemma {:induction false} PickedFromContent(ls: seq<Line>, j: nat, n: int)
    requires j <= |ls|
    ensures forall k :: 0 <= k < |Picked(ls, j, n)| ==> Line(Picked(ls, j, n)[k], false) in ls[..j]
  {
    if j > 0 {
      PickedFromContent(ls, j - 1, n);
      var p := Picked(ls, j - 1, n);
      assert ls[..j] == ls[..j - 1] + [ls[j - 1]];
      forall k | 0 <= k < |Picked(ls, j, n)|
        ensures Line(Picked(ls, j, n)[k], false) in ls[..j]
      {
        if k < |p| {
          assert Picked(ls, j, n)[k] == p[k];
        } else {
          assert Line(Picked(ls, j, n)[k], false) == ls[j - 1];
        }
      }
    }
  }

  /** A segment stays empty until enough delimiters have been seen. */
  lemma {:induction false} PickedNeedsCount(ls: seq<Line>, j: nat, n: int)
    requires j <= |ls| && Count(ls, j) < n
    ensures Picked(ls, j, n) == []
  {
    if j > 0 {
      PickedNeedsCount(ls, j - 1, n);
    }
  }

  lemma TextsSnoc(ls: seq<Line>, a: nat, b: nat)
    requires a < b <= |ls|
    ensures Texts(ls[a..b]) == Texts(ls[a..b - 1]) + [ls[b - 1].text]
  {
  }

  /**
   * A run of lines without a delimiter, starting where `n` delimiters have
   * been seen, keeps the count at `n` and extends segment `n` by the run.
   */
  lemma {:induction false} RunInto(ls: seq<Line>, a: nat, b: nat, n: int)
    requires a <= b <= |ls| && Count(ls, a) == n
    requires forall i :: a <= i < b ==> !ls[i].delimiter
    ensures Count(ls, b) == n
    ensures Picked(ls, b, n) == Picked(ls, a, n) + Texts(ls[a..b])
    decreases b
  {
    var p := Picked(ls, a, n);
    if a == b {
      assert Texts(ls[a..b]) == [];
      assert p + [] == p;
    } else {
      RunInto(ls, a, b - 1, n);
      TextsSnoc(ls, a, b);
      var t := Texts(ls[a..b - 1]);
      assert Picked(ls, b, n) == (p + t) + [ls[b - 1].text];
      assert (p + t) + [ls[b - 1].text] == p + (t + [ls[b - 1].text]);
    }
  }

  /**
   * A run of lines without a delimiter, starting where the count is not `n`,
   * leaves the count and segment `n` as they are.
   */
  lemma {:induction false} RunPast(ls: seq<Line>, a: nat, b: nat, n: int)
    requires a <= b <= |ls| && Count(ls, a) != n
    requires forall i :: a <= i < b ==> !ls[i].delimiter
    ensures Count(ls, b) == Count(ls, a)
    ensures Picked(ls, b, n) == Picked(ls, a, n)
    decreases b
  {
    if a < b {
      RunPast(ls, a, b - 1, n);
      assert Picked(ls, b, n) == Picked(ls, b - 1, n) + [];
    }
  }

  /**
   * Once a third delimiter has been seen, no later line reaches either
   * segment and the count never drops below three.
   */
  lemma {:induction false} AfterThirdDelimiter(ls: seq<Line>, a: nat, b: nat, n: int)
    requires a <= b <= |ls| && Count(ls, a) >= 3 && n <= 2
    ensures Count(ls, b) >= 3 && Picked(ls, b, n) == Picked(ls, a, n)
    decreases b
  {
    if a < b {
      AfterThirdDelimiter(ls, a, b - 1, n);
      assert Picked(ls, b, n) == Picked(ls, b - 1, n) + [];
    }
  }

  /** The count and the segments of a prefix do not depend on what follows it. */
  lemma {:induction false} PrefixStable(ls: seq<Line>, after: seq<Line>, j: nat, n: int)
    requires j <= |ls|
    ensures Count(ls + after, j) == Count(ls, j)
    ensures Picked(ls + after, j, n) == Picked(ls, j, n)
  {
    if j > 0 {
      PrefixStable(ls, after, j - 1, n);
      assert (ls + after)[j - 1] == ls[j - 1];
    }
  }

  /** Lines with no delimiter in front shift the file without changing what it picks for segments 1 and 2. */
  lemma {:induction false} ShiftedByLeading(before: seq<Line>, ls: seq<Line>, j: nat, n: int)
    requires Count(before, |before|) == 0
    requires j <= |ls| && n >= 1
    ensures Count(before + ls, |before| + j) == 0 + Count(ls, j)
    ensures Picked(before + ls, |before| + j, n) == Picked(ls, j, n)
  {
    var all := before + ls;
    if j == 0 {
      PrefixStable(before, ls, |before|, n);
      PickedNeedsCount(before, |before|, n);
    } else {
      ShiftedByLeading(before, ls, j - 1, n);
      assert all[|before| + j - 1] == ls[j - 1];
    }
  }

  /**
   * The delimiter layout of a front-matter file: no delimiter before `p`,
   * delimiters at `p` and `q`, none in between or between `q` and `r`, and
   * `r` is either the end of the file or a third delimiter.
   */
  predicate Layout(ls: seq<Line>, p: nat, q: nat, r: nat) {
    && p < q < r <= |ls|
    && (forall i :: 0 <= i < p ==> !ls[i].delimiter)
    && ls[p].delimiter
    && (forall i :: p < i < q ==> !ls[i].delimiter)
    && ls[q].delimiter
    && (forall i :: q < i < r ==> !ls[i].delimiter)
    && (r < |ls| ==> ls[r].delimiter)
  }

  /** Just after the second delimiter: the count is two and the YAML segment is complete. */
  lemma FirstTwoDelimiters(ls: seq<Line>, p: nat, q: nat, r: nat)
    requires Layout(ls, p, q, r)
    ensures Count(ls, q + 1) == 2
    ensures Picked(ls, q + 1, 1) == Texts(ls[p + 1..q]) && Picked(ls, q + 1, 2) == []
  {
    RunPast(ls, 0, p, 1);
    RunPast(ls, 0, p, 2);
    DelimiterLine(ls, p, 1);
    DelimiterLine(ls, p, 2);
    RunInto(ls, p + 1, q, 1);
    RunPast(ls, p + 1, q, 2);
    DelimiterLine(ls, q, 1);
    DelimiterLine(ls, q, 2);
    assert [] + Texts(ls[p + 1..q]) == Texts(ls[p + 1..q]);
  }

  /** Where the Markdown segment ends (a third delimiter, or the end of the file) both segments are final. */
  lemma SegmentsFinalAt(ls: seq<Line>, r: nat, n: int)
    requires r <= |ls| && (r < |ls| ==> ls[r].delimiter) && Count(ls, r) == 2 && n <= 2
    ensures Picked(ls, |ls|, n) == Picked(ls, r, n)
  {
    if r < |ls| {
      DelimiterLine(ls, r, n);
      AfterThirdDelimiter(ls, r + 1, |ls|, n);
    }
  }

  /** The YAML segment of a file with that layout: the texts strictly between `p` and `q`. */
  lemma YamlOfLayout(ls: seq<Line>, p: nat, q: nat, r: nat)
    requires Layout(ls, p, q, r)
    ensures Picked(ls, |ls|, 1) == Texts(ls[p + 1..q])
  {
    FirstTwoDelimiters(ls, p, q, r);
    RunPast(ls, q + 1, r, 1);
    SegmentsFinalAt(ls, r, 1);
  }

  /** The Markdown segment of a file with that layout: the texts strictly between `q` and `r`. */
  lemma MarkdownOfLayout(ls: seq<Line>, p: nat, q: nat, r: nat)
    requires Layout(ls, p, q, r)
    ensures Picked(ls, |ls|, 2) == Texts(ls[q + 1..r])
  {
    FirstTwoDelimiters(ls, p, q, r);
    RunInto(ls, q + 1, r, 2);
    assert [] + Texts(ls[q + 1..r]) == Texts(ls[q + 1..r]);
    SegmentsFinalAt(ls, r, 2);
  }

  /** The delimiter layout of a file, in terms of its lines' own text. */
  lemma ClassifiedLayout(lines: seq<string>, p: nat, q: nat, r: nat)
    requires p < q < r <= |lines|
    requires forall i :: 0 <= i < p ==> !IsDelimiter(lines[i])
    requires IsDelimiter(lines[p])
    requires forall i :: p < i < q ==> !IsDelimiter(lines[i])
    requires IsDelimiter(lines[q])
    requires forall i :: q < i < r ==> !IsDelimiter(lines[i])
    requires r < |lines| ==> IsDelimiter(lines[r])
    ensures Layout(ClassifyAll(lines), p, q, r)
  {
  }

  /**
   * The layout of a front-matter file: with the first delimiter at `p`, the
   * second at `q`, and `r` the third delimiter or the end of the file, the
   * YAML segment is exactly the lines strictly between `p` and `q` and the
   * Markdown segment exactly those strictly between `q` and `r`, each
   * untrimmed and followed by a newline. The lines before `p` and from `r`
   * on are in neither.
   */
  lemma FrontMatterLayout(lines: seq<string>, p: nat, q: nat, r: nat)
    requires Layout(ClassifyAll(lines), p, q, r)
    ensures Split(lines) == Segments(Render(lines[p + 1..q]), Render(lines[q + 1..r]))
  {
    var ls := ClassifyAll(lines);
    YamlOfLayout(ls, p, q, r);
    MarkdownOfLayout(ls, p, q, r);
    TextsOfClassified(lines, p + 1, q);
    TextsOfClassified(lines, q + 1, r);
    SegmentsFromPicks(ls, lines[p + 1..q], lines[q + 1..r]);
  }

  lemma SegmentsFromPicks(ls: seq<Line>, yaml: seq<string>, markdown: seq<string>)
    requires Picked(ls, |ls|, 1) == yaml && Picked(ls, |ls|, 2) == markdown
    ensures SegmentsOf(ls) == Segments(Render(yaml), Render(markdown))
  {
  }

  /** No delimiter line is ever appended to either segment, and every appended line is a line of the file. */
  lemma NoDelimiterAppended(lines: seq<string>, n: int)
    ensures forall k :: 0 <= k < |Picked(ClassifyAll(lines), |lines|, n)| ==>
              Picked(ClassifyAll(lines), |lines|, n)[k] in lines &&
              !IsDelimiter(Picked(ClassifyAll(lines), |lines|, n)[k])
  {
    var ls := ClassifyAll(lines);
    var picked := Picked(ls, |lines|, n);
    PickedFromContent(ls, |lines|, n);
    assert ls[..|lines|] == ls;
    forall k | 0 <= k < |picked|
      ensures picked[k] in lines && !IsDelimiter(picked[k])
    {
      var i :| 0 <= i < |ls| && ls[i] == Line(picked[k], false);
      assert Classify(lines[i]) == Line(picked[k], false);
    }
  }

  /** Line-level form of `LeadingLinesDropped`. */
  lemma LeadingLinesDroppedLines(before: seq<Line>, ls: seq<Line>)
    requires Count(before, |before|) == 0
    ensures SegmentsOf(before + ls) == SegmentsOf(ls)
  {
    ShiftedPicks(before, ls, 1);
    ShiftedPicks(before, ls, 2);
    SegmentsFromPicks(before + ls, Picked(ls, |ls|, 1), Picked(ls, |ls|, 2));
  }

  /** The picks of the whole shifted file. */
  lemma ShiftedPicks(before: seq<Line>, ls: seq<Line>, n: int)
    requires Count(before, |before|) == 0 && n >= 1
    ensures Picked(before + ls, |before + ls|, n) == Picked(ls, |ls|, n)
  {
    ShiftedByLeading(before, ls, |ls|, n);
  }

  /**
   * Lines before the first delimiter are dropped: prefixing a file with lines
   * that contain no delimiter does not change its segments.
   */
  lemma LeadingLinesDropped(before: seq<string>, lines: seq<string>)
    requires DelimiterCount(before) == 0
    ensures Split(before + lines) == Split(lines)
  {
    ClassifyAllAppend(before, lines);
    LeadingLinesDroppedLines(ClassifyAll(before), ClassifyAll(lines));
  }

  /** Line-level form of `LinesAfterThirdDelimiterDropped`. */
  lemma LinesAfterThirdDelimiterDroppedLines(ls: seq<Line>, after: seq<Line>)
    requires Count(ls, |ls|) >= 3
    ensures SegmentsOf(ls + after) == SegmentsOf(ls)
  {
    var all := ls + after;
    PrefixStable(ls, after, |ls|, 1);
    PrefixStable(ls, after, |ls|, 2);
    AfterThirdDelimiter(all, |ls|, |all|, 1);
    AfterThirdDelimiter(all, |ls|, |all|, 2);
    SegmentsFromPicks(all, Picked(ls, |ls|, 1), Picked(ls, |ls|, 2));
  }

  /**
   * Once a third delimiter has been seen (a Markdown `---` rule, say), no
   * later line reaches either segment: whatever follows, the segments stay.
   */
  lemma LinesAfterThirdDelimiterDropped(lines: seq<string>, after: seq<string>)
    requires DelimiterCount(lines) >= 3
    ensures Split(lines + after) == Split(lines)
  {
    ClassifyAllAppend(lines, after);
    LinesAfterThirdDelimiterDroppedLines(ClassifyAll(lines), ClassifyAll(after));
  }

  /** Up to and including a first delimiter, nothing is picked for the YAML segment. */
  lemma UpToFirstDelimiter(ls: seq<Line>, p: nat)
    requires p < |ls| && ls[p].delimiter
    requires forall i :: 0 <= i < p ==> !ls[i].delimiter
    ensures Count(ls, p + 1) == 1 && Picked(ls, p + 1, 1) == []
  {
    RunPast(ls, 0, p, 1);
    DelimiterLine(ls, p, 1);
  }

  /** `RunInto` for a segment that is still empty. */
  lemma RunIntoEmpty(ls: seq<Line>, a: nat, b: nat, n: int)
    requires a <= b <= |ls| && Count(ls, a) == n && Picked(ls, a, n) == []
    requires forall i :: a <= i < b ==> !ls[i].delimiter
    ensures Count(ls, b) == n && Picked(ls, b, n) == Texts(ls[a..b])
  {
    RunInto(ls, a, b, n);
    var run := Texts(ls[a..b]);
    assert [] + run == run;
  }

  /** Line-level form of `OneDelimiter`. */
  lemma OneDelimiterLines(ls: seq<Line>, p: nat)
    requires p < |ls| && ls[p].delimiter
    requires forall i :: 0 <= i < p ==> !ls[i].delimiter
    requires forall i :: p < i < |ls| ==> !ls[i].delimiter
    ensures Picked(ls, |ls|, 1) == Texts(ls[p + 1..|ls|]) && Picked(ls, |ls|, 2) == []
  {
    assert Count(ls, p + 1) == 1 && Picked(ls, p + 1, 1) == [] by {
      UpToFirstDelimiter(ls, p);
    }
    assert Count(ls, |ls|) == 1 && Picked(ls, |ls|, 1) == Texts(ls[p + 1..|ls|]) by {
      RunIntoEmpty(ls, p + 1, |ls|, 1);
    }
    PickedNeedsCount(ls, |ls|, 2);
  }

  /**
   * A file with a single delimiter: every line after it goes to the YAML
   * segment, and the Markdown segment stays empty.
   */
  lemma OneDelimiter(lines: seq<string>, p: nat)
    requires p < |lines| && IsDelimiter(lines[p])
    requires forall i :: 0 <= i < p ==> !IsDelimiter(lines[i])
    requires forall i :: p < i < |lines| ==> !IsDelimiter(lines[i])
    ensures Split(lines) == Segments(Render(lines[p + 1..]), "")
  {
    var ls := ClassifyAll(lines);
    OneDelimiterLines(ls, p);
    TextsOfClassified(lines, p + 1, |lines|);
    assert lines[p + 1..|lines|] == lines[p + 1..];
    SegmentsFromPicks(ls, lines[p + 1..], []);
  }

  /** With fewer than two delimiters the Markdown segment is empty; with none, both are. */
  lemma FewDelimiters(lines: seq<string>)
    ensures DelimiterCount(lines) < 2 ==> Split(lines).markdown == ""
    ensures DelimiterCount(lines) == 0 ==> Split(lines) == Segments("", "")
  {
    var ls := ClassifyAll(lines);
    if Count(ls, |ls|) < 2 {
      PickedNeedsCount(ls, |ls|, 2);
    }
    if Count(ls, |ls|) == 0 {
      PickedNeedsCount(ls, |ls|, 1);
    }
  }

  /**
   * A delimiter line is `---` with only whitespace around it: any spaces or
   * tabs, or a carriage return (which line reading leaves only from a lone CR,
   * such as a last line `---\r` with no newline; it strips a CRLF ending).
   */
  lemma DelimiterIsPaddedDashes(line: string) returns (i: nat)
    requires IsDelimiter(line)
    ensures i + 3 <= |line| && line[i..i + 3] == "---"
    ensures BlankBetween(line, 0, i) && BlankBetween(line, i + 3, |line|)
  {
    i := TrimIsInfix(line);
  }

  /** Conversely, `---` with whitespace around it is a delimiter line. */
  lemma PaddedDashesIsDelimiter(a: string, b: string)
    requires BlankBetween(a, 0, |a|) && BlankBetween(b, 0, |b|)
    ensures IsDelimiter(a + "---" + b)
  {
    TrimPadded(a, "---", b);
  }

  /** `---` alone, indented and tab-terminated, or followed by a lone carriage return, is a delimiter. */
  lemma DelimiterExamples()
    ensures IsDelimiter("---") && IsDelimiter("  ---\t") && IsDelimiter("---\r")
  {
    TrimOfInner("---");
    assert IsDelimiter("  ---\t") by {
      PaddedDashesIsDelimiter("  ", "\t");
      assert "  " + "---" + "\t" == "  ---\t";
    }
    assert IsDelimiter("---\r") by {
      PaddedDashesIsDelimiter("", "\r");
      assert "" + "---" + "\r" == "---\r";
    }
  }

  /** Lines that only resemble a delimiter, and ordinary lines, are content. */
  lemma NonDelimiterExamples()
    ensures !IsDelimiter("----") && !IsDelimiter("- --") && !IsDelimiter("")
    ensures !IsDelimiter("author: Jane") && !IsDelimiter("# Hello")
  {
    TrimOfInner("----");
    TrimOfInner("- --");
    TrimOfInner("author: Jane");
    TrimOfInner("# Hello");
  }

  /** The delimiter layout of the smallest front-matter document. */
  lemma MinimalLayout(yaml: string, markdown: string)
    requires !IsDelimiter(yaml) && !IsDelimiter(markdown)
    ensures Layout(ClassifyAll(["---", yaml, "---", markdown]), 0, 2, 4)
  {
    TrimOfInner("---");
    ClassifiedLayout(["---", yaml, "---", markdown], 0, 2, 4);
  }

  /**
   * The smallest front-matter document: a delimiter, one line of YAML, a
   * delimiter and one line of Markdown (`author: Jane` and `# Hello`, say).
   */
  lemma MinimalDocument(yaml: string, markdown: string)
    requires !IsDelimiter(yaml) && !IsDelimiter(markdown)
    ensures Split(["---", yaml, "---", markdown]) == Segments(yaml + "\n", markdown + "\n")
  {
    var lines := ["---", yaml, "---", markdown];
    MinimalLayout(yaml, markdown);
    FrontMatterLayout(lines, 0, 2, 4);
    assert lines[1..2] == [yaml];
    assert lines[3..4] == [markdown];
    RenderSingle(yaml);
    RenderSingle(markdown);
  }
}
