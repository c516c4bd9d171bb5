/** The job input file: line 1 is the position, the remaining lines the description. */
module JobParser {
  import opened Common
  import opened Text
  import opened Files

  /** The dictionary `parse_job_input` returns. */
  datatype JobRecord = JobRecord(jobPosition: string, jobDescription: string)

  /** What `parse_job_input` does once `readlines()` has split the file. */
  function ParseLines(lines: seq<string>): (r: Result<JobRecord>)
    ensures r.Err? <==> |lines| < 2
    ensures r.Err? ==> r.error == MalformedInput
    ensures r.Ok? ==> Stripped(r.value.jobPosition) && Stripped(r.value.jobDescription)
  {
    if |lines| < 2 then Err(MalformedInput)
    else Ok(JobRecord(Strip(lines[0]), Strip(Concat(lines[1..]))))
  }

  /** The parse of a file's text: both fields are pieces of the text itself. */
  function ParseText(text: string): (r: Result<JobRecord>)
    ensures r.Err? ==> r.error == MalformedInput
    ensures r.Ok? ==> Contains(text, r.value.jobPosition) && Contains(text, r.value.jobDescription)
  {
    var lines := ReadLines(text);
    assert |lines| >= 2 ==> Contains(text, Strip(lines[0])) && Contains(text, Strip(Concat(lines[1..]))) by {
      if |lines| >= 2 {
        var first := lines[0];
        var rest := Concat(lines[1..]);
        assert text == first + rest;
        assert first <= text[0..];
        assert rest <= text[|first|..];
        ContainsTransitive(text, first, Strip(first));
        ContainsTransitive(text, rest, Strip(rest));
      }
    }
    ParseLines(lines)
  }

  /** `parse_job_input(file_path)`. */
  function ParseJobInput(fs: FileMap, path: Path): (r: Result<JobRecord>)
    ensures path !in fs ==> r == Err(MissingInput)
    ensures path in fs && ReadText(fs, path).None? ==> r == Err(ReadFailed)
    ensures ReadText(fs, path).Some? ==> r == ParseText(fs[path].text)
  {
    if path !in fs then Err(MissingInput)
    else
      match ReadText(fs, path)
      case None => Err(ReadFailed)
      case Some(text) => ParseText(text)
  }

  /** Parsing succeeds exactly when some line break is followed by more text. */
  lemma ParseSucceedsIffSecondLine(text: string)
    ensures ParseText(text).Ok? <==> exists i :: 0 <= i < |text| - 1 && text[i] == '\n'
  {
    TwoLinesIffInnerNewline(text);
  }

  /**
   * For a file made of a complete first line and a non-empty rest, the position
   * is that line stripped and the description is the rest stripped: neither
   * depends on the other part of the file.
   */
  lemma ParseSplitsFirstLine(line: string, rest: string)
    requires IsLine(line) && EndsLine(line) && rest != []
    ensures ParseText(line + rest) == Ok(JobRecord(Strip(line), Strip(rest)))
  {
    FirstLineSplitsOff(line, rest);
    var tail := ReadLines(rest);
    assert ([line] + tail)[1..] == tail;
  }
}
