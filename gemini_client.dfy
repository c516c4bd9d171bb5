/**
 * The pure parts of the Gemini client: the API-key check, the prompt, and the
 * clean-up of the model's reply before it is parsed as JSON.
 */
module GeminiClient {
  import opened Common
  import opened Text
  import opened TemplateFinder
  import opened JobParser

  /** A configured client; only the key it is built from matters here. */
  datatype Client = Client(apiKey: string)

  /** `initialize_gemini()`, with the value of `GEMINI_API_KEY` given (`None` when unset). */
  function InitializeGemini(apiKey: Option<string>): (r: Result<Client>)
    ensures r.Ok? <==> apiKey.Some? && apiKey.value != ""
    ensures r.Err? ==> r.error == MissingApiKey
    ensures r.Ok? ==> r.value.apiKey == apiKey.value
  {
    if apiKey.None? || apiKey.value == "" then Err(MissingApiKey) else Ok(Client(apiKey.value))
  }

  /** How an f-string renders a raw section: its text, or `None` when there is none. */
  function Render(raw: Option<string>): string {
    match raw
    case None => "None"
    case Some(s) => s
  }

  // The literal parts of the prompt f-string, in order.
  const PromptIntro: string :=
    "\n    You are an expert resume writer and LaTeX specialist. \n"
    + "    TASK: Tailor the following LaTeX resume sections to better align with the Job Description (JD).\n"
    + "    \n"
    + "    JOB POSITION: "
  const BeforeDescription: string := "\n    JOB DESCRIPTION:\n    "
  const BeforeExperience: string := "\n\n    ORIGINAL LATEX EXPERIENCE:\n    "
  const BeforeSkills: string := "\n\n    ORIGINAL LATEX SKILLS:\n    "
  const PromptInstructions: string :=
    "\n\n    INSTRUCTIONS:\n"
    + "    1. Rephrase experience bullet points to highlight JD keywords.\n"
    + "    2. Update the skills section to prioritize technologies mentioned in the JD.\n"
    + "    3. STRICT RULE: Maintain all LaTeX commands, environments (itemize, etc.), and special characters.\n"
    + "    4. RETURN ONLY A JSON OBJECT with keys \"experience\" and \"skills\". No conversational filler.\n"
    + "    "

  /** A piece at the end of a text occurs in it. */
  lemma SuffixContained(a: string, p: string)
    ensures Contains(a + p, p)
  {
    assert p <= (a + p)[|a|..];
  }

  /** A piece of a text still occurs once more text is appended. */
  lemma ContainedInLonger(a: string, b: string, p: string)
    requires Contains(a, p)
    ensures Contains(a + b, p)
  {
    var i :| 0 <= i <= |a| && p <= a[i..];
    assert p <= (a + b)[i..];
  }

  /** Each hole of a five-piece template occurs in the filled template. */
  lemma HolesContained(c0: string, x1: string, c1: string, x2: string, c2: string,
                       x3: string, c3: string, x4: string, c4: string)
    ensures var s := c0 + x1 + c1 + x2 + c2 + x3 + c3 + x4 + c4;
      Contains(s, x1) && Contains(s, x2) && Contains(s, x3) && Contains(s, x4) && Contains(s, c4)
  {
    var s1 := c0 + x1;
    var s2 := s1 + c1;
    var s3 := s2 + x2;
    var s4 := s3 + c2;
    var s5 := s4 + x3;
    var s6 := s5 + c3;
    var s7 := s6 + x4;
    var s := s7 + c4;
    SuffixContained(c0, x1);
    ContainedInLonger(s1, c1, x1);
    ContainedInLonger(s2, x2, x1);
    SuffixContained(s2, x2);
    ContainedInLonger(s3, c2, x1);
    ContainedInLonger(s3, c2, x2);
    ContainedInLonger(s4, x3, x1);
    ContainedInLonger(s4, x3, x2);
    SuffixContained(s4, x3);
    ContainedInLonger(s5, c3, x1);
    ContainedInLonger(s5, c3, x2);
    ContainedInLonger(s5, c3, x3);
    ContainedInLonger(s6, x4, x1);
    ContainedInLonger(s6, x4, x2);
    ContainedInLonger(s6, x4, x3);
    SuffixContained(s6, x4);
    ContainedInLonger(s7, c4, x1);
    ContainedInLonger(s7, c4, x2);
    ContainedInLonger(s7, c4, x3);
    ContainedInLonger(s7, c4, x4);
    SuffixContained(s7, c4);
  }

  /** The last two holes of a five-piece template each occur between their surrounding pieces. */
  lemma SlotsContained(c0: string, x1: string, c1: string, x2: string, c2: string,
                       x3: string, c3: string, x4: string, c4: string)
    ensures var s := c0 + x1 + c1 + x2 + c2 + x3 + c3 + x4 + c4;
      Contains(s, c2 + x3 + c3) && Contains(s, c3 + x4 + c4)
  {
    var head := c0 + x1 + c1 + x2;
    var s := head + c2 + x3 + c3 + x4 + c4;
    var third := c2 + x3 + c3;
    assert head + c2 + x3 + c3 == head + third;
    SuffixContained(head, third);
    ContainedInLonger(head + third, x4, third);
    ContainedInLonger(head + third + x4, c4, third);
    var fourth := c3 + x4 + c4;
    assert s == head + c2 + x3 + fourth;
    SuffixContained(head + c2 + x3, fourth);
  }

  /** The prompt `tailor_with_gemini` sends: every job field and both raw sections appear in it. */
  function BuildPrompt(job: JobRecord, content: map<Section, Extracted>): (prompt: string)
    requires Experience in content && Skills in content
    ensures Contains(prompt, job.jobPosition)
    ensures Contains(prompt, job.jobDescription)
    ensures Contains(prompt, Render(content[Experience].raw))
    ensures Contains(prompt, Render(content[Skills].raw))
    ensures Contains(prompt, PromptInstructions)
    ensures Contains(prompt, BeforeExperience + Render(content[Experience].raw) + BeforeSkills)
    ensures Contains(prompt, BeforeSkills + Render(content[Skills].raw) + PromptInstructions)
  {
    HolesContained(PromptIntro, job.jobPosition, BeforeDescription, job.jobDescription, BeforeExperience,
      Render(content[Experience].raw), BeforeSkills, Render(content[Skills].raw), PromptInstructions);
    SlotsContained(PromptIntro, job.jobPosition, BeforeDescription, job.jobDescription, BeforeExperience,
      Render(content[Experience].raw), BeforeSkills, Render(content[Skills].raw), PromptInstructions);
    PromptIntro + job.jobPosition + BeforeDescription + job.jobDescription
      + BeforeExperience + Render(content[Experience].raw) + BeforeSkills + Render(content[Skills].raw)
      + PromptInstructions
  }

  /**
   * A section whose file could not be read is rendered as `None`, in its own slot:
   * between the experience and skills headings, or between the skills heading and
   * the instructions.
   */
  lemma MissingSectionRendersNone(job: JobRecord, content: map<Section, Extracted>, s: Section)
    requires Experience in content && Skills in content
    requires s in content && content[s].raw.None?
    ensures Render(content[s].raw) == "None"
    ensures s == Experience ==> Contains(BuildPrompt(job, content), BeforeExperience + "None" + BeforeSkills)
    ensures s == Skills ==> Contains(BuildPrompt(job, content), BeforeSkills + "None" + PromptInstructions)
  {
  }

  const JsonFence: string := "```json"

  /** `response.text.replace('```json', '').replace('```', '').strip()`. */
  function CleanResponse(text: string): (r: string)
    ensures Stripped(r)
    ensures !Contains(r, Fence)
  {
    var unfenced := Replace(Replace(text, JsonFence, ""), Fence, "");
    var r := Strip(unfenced);
    assert !Contains(r, Fence) by {
      NoFenceAfterRemoval(Replace(text, JsonFence, ""));
      if Contains(r, Fence) {
        ContainsTransitive(unfenced, r, Fence);
      }
    }
    r
  }

  /** A fenced reply loses its fences: for a body without backticks, cleaning gives the stripped body. */
  lemma CleanFencedBody(body: string)
    requires forall i :: 0 <= i < |body| ==> body[i] != '`'
    ensures CleanResponse(JsonFence + body + Fence) == Strip(body)
  {
    var s := JsonFence + body + Fence;
    assert JsonFence <= s;
    assert s[|JsonFence|..] == body + Fence;
    ReplaceSkipsPrefix(body, Fence, JsonFence, "");
    assert Replace(Fence, JsonFence, "") == Fence;
    assert Replace(s, JsonFence, "") == body + Fence;
    ReplaceSkipsPrefix(body, Fence, Fence, "");
    assert Replace(Fence, Fence, "") == "";
    assert body + "" == body;
  }

  /** Cleaning an already cleaned reply changes nothing. */
  lemma CleanIdempotent(text: string)
    ensures CleanResponse(CleanResponse(text)) == CleanResponse(text)
  {
    var c := CleanResponse(text);
    ReplaceAbsent(c, JsonFence, "");
    ReplaceAbsent(c, Fence, "");
  }
}
