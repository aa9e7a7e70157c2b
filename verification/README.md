# pdf_ok front matter, modelled in Dafny

`pdf_ok` turns Markdown files that open with a YAML front-matter block into
PDF files. This project models the part of it that works out what each PDF
is made of:

- the line loop of `read_file_data`, which splits a file into YAML front
  matter and a Markdown body by counting delimiter lines (a line whose
  trimmed text is `---`);
- the YAML-mapping-to-hash-map conversion `yaml_mapping_to_hashmap`;
- the metadata checks the loop makes on the front matter (`tags` and
  `author` must be present);
- the output stem, which is the file name with every trailing `.md` removed.

Modules, one per concern:

- `Text` (`text.dfy`): Rust's `str::trim` with the Unicode White_Space set
  of `char::is_whitespace`, written as two index scans, and
  `str::trim_end_matches`, which recurses on the prefix left after each
  removed copy of the pattern. Lemmas characterise both results.
- `Yaml` (`yaml.dfy`): the parsed YAML value (`Node`). It holds
  `ToHashmap`, the specification of the conversion, and `Get`, the
  `Value::get` lookup. Lemmas cover the key set, which value is kept for a
  key, the size of the result and the failure cases.
- `FrontMatter` (`front_matter.dfy`): `Split`, the declarative meaning of
  the line loop. The loop's state is a delimiter `Count` and, per segment,
  the `Picked` lines rendered with a newline each. Lemmas give the
  segments of a file with no delimiter, with one, and with two or more, and
  show that lines before the first delimiter and after a third one are
  dropped.
- `ParseYamlHash` (`parse_yaml_hash.dfy`): the conversion as the source
  writes it. A `for` loop inserts into a map and returns early on a
  non-string key. It is proved equal to `ToHashmap`.
- `ReadFileData` (`read_file_data.dfy`): the batch loop over files. The
  inner line loop is `ReadSegments`, proved equal to `Split`. The outer
  loop, `ReadFileData`, is proved to produce one job per file, in order, as
  `ProcessFile` specifies, and to stop at the first file whose front matter
  makes the source panic (a panic inside the PDF generator is outside the
  model; see "Left out").

The conversion exists twice in the source with identical code: a private
copy in `pdf_ok/src/utils/read_file_data.rs:136-162` and the public one in
`pdf_ok/src/utils/parse_yaml_hash.rs:19-35`. Both are modelled by the single
method `ParseYamlHash.YamlMappingToHashmap`. `ReadFileData` calls it where the
source calls its private copy, at line 72. The two copies therefore agree on
every input.

Behaviour of the code that the model keeps as written:

- A file whose front matter does not parse, is not a mapping with string
  keys, or lacks `tags` or `author` makes the source panic. The unwraps at
  `read_file_data.rs:64,71,73,75,78` end the whole batch; the TODO at
  `read_file_data.rs:62` notes that a missing key is not yet handled.
  `ReadFileData` returns `panicked` and the jobs made so far, and processes
  no later file.
- A third `---` line, such as a Markdown horizontal rule, pushes the counter
  to 3. Every later line of the file is then dropped from the body
  (`FrontMatter.LinesAfterThirdDelimiterDropped`).
- A file that cannot be opened leaves both buffers empty, so its front
  matter is the empty text. With the usual YAML parser this is not a
  mapping, and the batch stops there.

## Model

| member | source | states |
|---|---|---|
| Text.IsWhitespace | pdf_ok/src/utils/read_file_data.rs:37 | `char::is_whitespace`, the characters `trim` removes: the Unicode White_Space set |
| Text.Trim | pdf_ok/src/utils/read_file_data.rs:37 | the trimmed line is no longer than the line and neither starts nor ends with whitespace |
| Text.TrimIsInfix | pdf_ok/src/utils/read_file_data.rs:37 | the trimmed line is an infix of the line with only whitespace before and after it |
| Text.TrimPadded | pdf_ok/src/utils/read_file_data.rs:37 | a text with non-whitespace ends, padded with whitespace on both sides, trims back to itself |
| Text.TrimOfInner | pdf_ok/src/utils/read_file_data.rs:37 | a text with non-whitespace ends is its own trim |
| Text.TrimEndMatches | pdf_ok/src/utils/read_file_data.rs:92 | `trim_end_matches(".md")`: removes trailing copies of the pattern one at a time; the result is a prefix of the name |
| Text.TrimEndMatchesStem | pdf_ok/src/utils/read_file_data.rs:92 | the file name is the stem followed by k >= 0 copies of `.md` |
| Text.TrimEndMatchesNoTrailingPattern | pdf_ok/src/utils/read_file_data.rs:92 | the stem does not end with `.md` |
| Text.TrimEndMatchesAppendRepeat | pdf_ok/src/utils/read_file_data.rs:92 | appending copies of `.md` to a name leaves its stem unchanged |
| Text.TrimEndMatchesUnique | pdf_ok/src/utils/read_file_data.rs:92 | a name `t` followed by k copies of `.md`, where `t` does not end with `.md`, has stem exactly `t` |
| Text.TrimEndMatchesNoSuffix | pdf_ok/src/utils/read_file_data.rs:92 | a name that does not end with `.md` is its own stem |
| Text.TrimEndMatchesIdempotent | pdf_ok/src/utils/read_file_data.rs:92 | taking the stem twice gives the same stem as taking it once |
| Text.StemOfMarkdownName | pdf_ok/src/utils/read_file_data.rs:92 | `source_mds/file_02.md` gives `source_mds/file_02` |
| Text.StemOfDoubledExtension | pdf_ok/src/utils/read_file_data.rs:92 | `notes.md.md` gives `notes`: every trailing `.md` goes |
| Text.StemOfOtherExtension | pdf_ok/src/utils/read_file_data.rs:92 | `readme.mdx` keeps its name |
| Yaml.InsertEntries | pdf_ok/src/utils/parse_yaml_hash.rs:23-30 | inserting the entries in order succeeds exactly when every key is a string |
| Yaml.ToHashmap | pdf_ok/src/utils/parse_yaml_hash.rs:19-35 | the conversion gives a map exactly when the value is a mapping whose keys are all strings, and None otherwise |
| Yaml.HashmapKeys | pdf_ok/src/utils/parse_yaml_hash.rs:21-31 | with string keys only, the map's key set is exactly the set of the mapping's keys |
| Yaml.HashmapLastWins | pdf_ok/src/utils/parse_yaml_hash.rs:24-26 | each key maps to the value of its last entry, unchanged, whatever kind of value it is |
| Yaml.HashmapOfUniqueKeys | pdf_ok/src/utils/parse_yaml_hash.rs:19-35 | with unique string keys, the map has as many entries as the mapping, each holding its entry's value |
| Yaml.KeyStringsCount | pdf_ok/src/utils/parse_yaml_hash.rs:21-31 | unique string keys have as many key texts as entries |
| Yaml.EmptyMappingGivesEmptyMap | pdf_ok/src/utils/parse_yaml_hash.rs:21-31 | the empty mapping gives an empty map, not None |
| Yaml.NonStringKeyRejects | pdf_ok/src/utils/parse_yaml_hash.rs:24-28 | one non-string key anywhere makes the result None |
| Yaml.DocExample | pdf_ok/src/utils/read_file_data.rs:131-134 | the documented `name: John` / `age: 30` example gives `John` and `30` under those keys |
| Yaml.Get | pdf_ok/src/utils/read_file_data.rs:78 | the lookup finds a value exactly when the value is a mapping with that string key |
| Yaml.GetAgreesWithHashmap | pdf_ok/src/utils/read_file_data.rs:72-79 | for unique string keys, looking a key up in the YAML value (`author`) and in the converted map (`tags`) agree on presence and on the value found |
| ParseYamlHash.YamlMappingToHashmap | pdf_ok/src/utils/parse_yaml_hash.rs:19-35 | the loop with its early return computes exactly `ToHashmap` |
| FrontMatter.IsDelimiter | pdf_ok/src/utils/read_file_data.rs:37-49 | the test `line.trim() == "---"` made at lines 37, 42 and 49 |
| FrontMatter.Split | pdf_ok/src/utils/read_file_data.rs:36-53 | the two segments the line loop builds for one file: non-delimiter lines seen at count 1 and at count 2, each followed by a newline |
| FrontMatter.StepLine | pdf_ok/src/utils/read_file_data.rs:37-52 | one line bumps the count if it is a delimiter, and otherwise is appended with a newline to the segment whose number is the count |
| FrontMatter.PickedFromContent | pdf_ok/src/utils/read_file_data.rs:41-52 | every text put in a segment is a non-delimiter line of the file |
| FrontMatter.NoDelimiterAppended | pdf_ok/src/utils/read_file_data.rs:37-51 | no delimiter line is ever appended to either segment, and every appended text is a line of the file |
| FrontMatter.RunInto | pdf_ok/src/utils/read_file_data.rs:41-52 | a run of content lines seen at count n is appended in full, in order, to segment n |
| FrontMatter.RunPast | pdf_ok/src/utils/read_file_data.rs:41-52 | a run of content lines seen at another count leaves segment n alone |
| FrontMatter.AfterThirdDelimiter | pdf_ok/src/utils/read_file_data.rs:49-52 | once the count reaches 3 no segment grows any more |
| FrontMatter.FrontMatterLayout | pdf_ok/src/utils/read_file_data.rs:37-52 | the YAML segment is the lines strictly between the first two delimiters, and the Markdown segment the lines after the second up to the end or a third delimiter, each followed by a newline |
| FrontMatter.ClassifiedLayout | pdf_ok/src/utils/read_file_data.rs:37 | the positions of the delimiter lines fix the layout |
| FrontMatter.LeadingLinesDropped | pdf_ok/src/utils/read_file_data.rs:41-47 | lines before the first delimiter do not change the segments |
| FrontMatter.LinesAfterThirdDelimiterDropped | pdf_ok/src/utils/read_file_data.rs:49-52 | after a third delimiter, no appended line changes the segments |
| FrontMatter.OneDelimiter | pdf_ok/src/utils/read_file_data.rs:37-52 | with a single delimiter, the YAML segment is every line after it, each followed by a newline, and the Markdown segment is empty |
| FrontMatter.FewDelimiters | pdf_ok/src/utils/read_file_data.rs:41-52 | with fewer than two delimiters the Markdown segment is empty, and with none both are |
| FrontMatter.DelimiterIsPaddedDashes | pdf_ok/src/utils/read_file_data.rs:37 | a delimiter line is `---` with only whitespace around it |
| FrontMatter.PaddedDashesIsDelimiter | pdf_ok/src/utils/read_file_data.rs:37 | `---` with any whitespace around it is a delimiter line (a carriage return can only survive line reading as a lone CR, as in a last line `---\r` with no newline) |
| FrontMatter.DelimiterExamples | pdf_ok/src/utils/read_file_data.rs:37 | `---`, an indented `---` ending in a tab, and `---` followed by a lone carriage return are delimiters |
| FrontMatter.NonDelimiterExamples | pdf_ok/src/utils/read_file_data.rs:37 | `----`, `- --`, the empty line and ordinary lines are content |
| FrontMatter.MinimalDocument | pdf_ok/src/utils/read_file_data.rs:37-52 | `---`, one YAML line, `---`, one Markdown line gives those two lines, each with a newline, as the segments |
| ReadFileData.ReadSegments | pdf_ok/src/utils/read_file_data.rs:36-53 | the line loop leaves in its two buffers exactly the file's segments as `Split` defines them |
| ReadFileData.FileSegments | pdf_ok/src/utils/read_file_data.rs:33-53 | the buffers after reading one file: its segments, or both empty when the file cannot be opened (the buffers were reset at lines 97-98) |
| ReadFileData.ProcessFile | pdf_ok/src/utils/read_file_data.rs:57-93 | the outcome for one file: no job where an unwrap panics, otherwise the stem, the Markdown segment and the converted front matter |
| ReadFileData.ProcessFileFails | pdf_ok/src/utils/read_file_data.rs:57-79 | a file stops the batch exactly when its front matter does not parse, is not a mapping of string keys, or lacks the key `tags` or the key `author` |
| ReadFileData.JobOfFile | pdf_ok/src/utils/read_file_data.rs:71-92 | a job carries the file's Markdown segment and the converted front matter (checked for `tags` and `author` and printed, passed to no one), and its stem is the name minus every trailing `.md` |
| ReadFileData.ReadFileData | pdf_ok/src/utils/read_file_data.rs:25-100 | the files are visited once each, in order: the jobs made are those `ProcessFile` gives for a prefix of the files, and the batch stops early exactly when it reaches a file that gives none |

## Left out

- File reading (`read_lines`, `BufReader`, `map_while(Result::ok)`): a file
  is given as its lines, or as None when it cannot be opened. A read error
  partway through a file, which ends its line sequence early, is not
  modelled.
- YAML parsing with `serde_yaml` is a parameter, `parse`, from text to an
  optional YAML value. The source parses the same text twice (lines 57-59
  and 71). Both parses are taken to give the same result, so the model
  parses once.
- The YAML value type has no floats and no tagged values. The parser's
  guarantee that a mapping never repeats a key is not built into `Node`;
  the lemmas that need it take `UniqueKeys` as a premise.
- Serialising the `author` value back to text (`yaml_to_string(...).expect`,
  lines 77-79) is taken never to fail, and the text itself is not kept.
- `markdown::to_html` and `generate_pdf` (lines 88-93) are outside the
  model. A `PdfJob` records the Markdown segment, which is converted to
  HTML and passed on, and the stem, which is passed on as the path. Its
  `metadata` is the converted front matter that the loop checks and prints
  (lines 73-75); no collaborator receives it. The source ignores the PDF
  generator's `Result`.
- The model takes `generate_pdf` to return rather than panic. It can panic:
  the `unwrap` at `generate_pdf.rs:45`, on the result of
  `extract_to_end_string` (not part of this model), would also stop the
  batch, on a file for which `ProcessFile` gives a job.
- Coloured console output (`println!`) is not modelled.
- The delimiter counter is an `i32`. Its overflow, which needs more than
  2^31 delimiter lines in one file, is not modelled.
- `generate_pdf.rs`, `lib.rs`, `main.rs` and `sources_files.rs` are not part
  of this model: they cover rendering, configuration, the command line and
  a fixed list of paths.
