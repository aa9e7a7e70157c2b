/**
 * `read_file_data`: for each file named, split its lines into YAML front
 * matter and Markdown body, parse the front matter, look up `tags` and
 * `author`, and hand the body to the PDF generator under the file's name
 * without its `.md` extension. A file whose front matter fails any of those
 * steps makes the source panic, which ends the whole batch.
 */
module ReadFileData {
  import opened Text
  import opened Yaml
  import opened FrontMatter
  import ParseYamlHash

  /** A file named on the command line: its lines, or None when it cannot be opened. */
  datatype SourceFile = SourceFile(name: string, lines: Option<seq<string>>)

  /**
   * One processed file: the stem and the Markdown segment, which the PDF
   * generator receives (the latter after conversion to HTML), and the
   * converted front matter, which the loop checks for `tags` and prints but
   * passes to no one.
   */
  datatype PdfJob = PdfJob(stem: string, markdown: string, metadata: map<string, Node>)

  /** The two text buffers once the file has been read; a file that cannot be opened leaves them empty. */
  function FileSegments(file: SourceFile): Segments {
    match file.lines
    case None => Segments("", "")
    case Some(lines) => Split(lines)
  }

  /**
   * The job for one file, or None where the source panics: the front matter
   * does not parse, is not a mapping with string keys only, or lacks one of
   * the keys `tags` and `author`. `parse` stands for the YAML parser.
   */
  function ProcessFile(file: SourceFile, parse: string -> Option<Node>): Option<PdfJob> {
    var segments := FileSegments(file);
    match parse(segments.yaml)
    case None => None
    case Some(value) =>
      match ToHashmap(value)
      case None => None
      case Some(hashmap) =>
        if "tags" !in hashmap || Get(value, "author").None? then None
        else Some(PdfJob(TrimEndMatches(file.name, ".md"), segments.markdown, hashmap))
  }

  /**
   * Exactly the files whose parsed front matter is a mapping with string keys
   * only, holding both a `tags` and an `author` key, give a job.
   */
  lemma ProcessFileFails(file: SourceFile, parse: string -> Option<Node>)
    ensures ProcessFile(file, parse).None? <==>
              var value := parse(FileSegments(file).yaml);
              || value.None?
              || !value.value.Mapping?
              || !AllStringKeys(value.value.entries)
              || "tags" !in KeyStrings(value.value.entries)
              || "author" !in KeyStrings(value.value.entries)
  {
    var value := parse(FileSegments(file).yaml);
    if value.Some? && value.value.Mapping? && AllStringKeys(value.value.entries) {
      HashmapKeys(value.value.entries);
      KeyStringsHasKey(value.value.entries, "author");
    }
  }

  /**
   * A job carries the Markdown body of its file, the converted front matter
   * (a map holding `tags` and `author`, checked and printed only), and a stem
   * that no longer ends with `.md` and gives back the file name once `k`
   * copies of `.md` are put back.
   */
  lemma JobOfFile(file: SourceFile, parse: string -> Option<Node>, job: PdfJob) returns (k: nat)
    requires ProcessFile(file, parse) == Some(job)
    ensures job.markdown == FileSegments(file).markdown
    ensures parse(FileSegments(file).yaml).Some?
    ensures Some(job.metadata) == ToHashmap(parse(FileSegments(file).yaml).value)
    ensures "tags" in job.metadata && "author" in job.metadata
    ensures file.name == job.stem + Repeat(".md", k) && !EndsWith(job.stem, ".md")
  {
    var value := parse(FileSegments(file).yaml).value;
    HashmapKeys(value.entries);
    KeyStringsHasKey(value.entries, "author");
    k := TrimEndMatchesStem(file.name, ".md");
    TrimEndMatchesNoTrailingPattern(file.name, ".md");
  }

  /** `jobs` are the jobs of the first `|jobs|` files, in order. */
  predicate JobsOf(files: seq<SourceFile>, parse: string -> Option<Node>, jobs: seq<PdfJob>) {
    |jobs| <= |files| && forall i :: 0 <= i < |jobs| ==> ProcessFile(files[i], parse) == Some(jobs[i])
  }

  lemma JobsExtend(files: seq<SourceFile>, parse: string -> Option<Node>, jobs: seq<PdfJob>, job: PdfJob)
    requires JobsOf(files, parse, jobs) && |jobs| < |files| && ProcessFile(files[|jobs|], parse) == Some(job)
    ensures JobsOf(files, parse, jobs + [job])
  {
    var jobs' := jobs + [job];
    forall i | 0 <= i < |jobs'| ensures ProcessFile(files[i], parse) == Some(jobs'[i]) {
      if i < |jobs| {
        assert jobs'[i] == jobs[i];
      }
    }
  }

  /** The job of a file whose front matter passes every step. */
  lemma ProcessFileSucceeds(file: SourceFile, parse: string -> Option<Node>, value: Node, hashmap: map<string, Node>)
    requires parse(FileSegments(file).yaml) == Some(value) && ToHashmap(value) == Some(hashmap)
    requires "tags" in hashmap && Get(value, "author").Some?
    ensures ProcessFile(file, parse) == Some(PdfJob(TrimEndMatches(file.name, ".md"), FileSegments(file).markdown, hashmap))
  {
  }

  /**
   * The loop over one file's lines: counts the delimiter lines seen so far
   * and appends each other line, with a newline, to the YAML buffer while the
   * count is 1 and to the Markdown buffer while it is 2. The buffers end up
   * holding the file's two segments.
   */
  method ReadSegments(lines: seq<string>) returns (yaml: string, markdown: string)
    ensures Segments(yaml, markdown) == Split(lines)
  {
    ghost var ls := ClassifyAll(lines);
    var count := 0;
    yaml := "";
    markdown := "";
    for j := 0 to |lines|
      invariant count == Count(ls, j)
      invariant yaml == Render(Picked(ls, j, 1))
      invariant markdown == Render(Picked(ls, j, 2))
    {
      var line := lines[j];
      StepLines(lines, j, 1);
      StepLines(lines, j, 2);
      if Trim(line) == "---" {
        count := count + 1;
      }
      if count == 1 && Trim(line) != "---" && count < 2 {
        yaml := yaml + line + "\n";
      }
      if count == 2 && Trim(line) != "---" {
        markdown := markdown + line + "\n";
      }
    }
  }

  /**
   * Runs the source's loop over `files`. `jobs` are the PDF generator calls
   * made, in order; `panicked` says the batch stopped early, at the first file
   * whose front matter is unusable, and then no later file is processed.
   */
  method ReadFileData(files: seq<SourceFile>, parse: string -> Option<Node>)
    returns (jobs: seq<PdfJob>, panicked: bool)
    ensures |jobs| <= |files|
    ensures forall i :: 0 <= i < |jobs| ==> ProcessFile(files[i], parse) == Some(jobs[i])
    ensures panicked <==> |jobs| < |files|
    ensures panicked ==> ProcessFile(files[|jobs|], parse) == None
  {
    jobs := [];
    panicked := false;
    var file := 0;
    var yaml := "";
    var markdown := "";
    while file < |files|
      invariant file <= |files| && |jobs| == file
      invariant yaml == "" && markdown == ""
      invariant JobsOf(files, parse, jobs)
      decreases |files| - file
    {
      var source := files[file];
      if source.lines.Some? {
        yaml, markdown := ReadSegments(source.lines.value);
      }
      var value := parse(yaml);
      if value.None? {
        panicked := true;
        return;
      }
      var hashmap := ParseYamlHash.YamlMappingToHashmap(value.value);
      if hashmap.None? {
        panicked := true;
        return;
      }
      if "tags" !in hashmap.value {
        panicked := true;
        return;
      }
      var author := Get(value.value, "author");
      if author.None? {
        panicked := true;
        return;
      }
      var stem := TrimEndMatches(source.name, ".md");
      var job := PdfJob(stem, markdown, hashmap.value);
      ProcessFileSucceeds(source, parse, value.value, hashmap.value);
      JobsExtend(files, parse, jobs, job);
      jobs := jobs + [job];
      file := file + 1;
      yaml := "";
      markdown := "";
    }
  }
}
