# Resume_Builder core, modelled in Dafny

Resume_Builder tailors a LaTeX resume to a job posting. It works in five steps:

1. It reads a job file. Line 1 is the position and the remaining lines are the description.
2. It picks the template folder whose name contains the position, together with that folder's `experience.tex` and its highest-priority skills file.
3. It asks Gemini to rewrite both sections. The prompt embeds the job and the raw LaTeX, and the reply is stripped of Markdown fences.
4. It copies the template into a sibling `<folder>_Temp` folder and overwrites the rewritten files there.
5. It runs `pdflatex` and copies `main.pdf` to `output/pdf/<folder>_Temp.pdf`.

This project models the decision logic of those steps. In the model, the filesystem is a finite map from paths to nodes. A path is a sequence of components. A node is a directory, or a file with its text and with whether it can be read and written.

- `Common`: `Option`, `Result`, and one `Error` constructor for each place the code raises.
- `Text`: the Python string operations the code uses. These are `str.strip` over CPython's whitespace set, ASCII `str.lower`, the substring test `in`, `str.replace`, `str.split('\n')`, `"".join` and `readlines`.
- `Files`: `os.path.join`/`basename`/`dirname` on component sequences. `open` for reading and writing, `shutil.copytree`, `shutil.copy2` and `os.makedirs` are modelled as functions that return the new map, or `None` where Python raises.
- `TemplateFinder`: `locate_template_assets` and `extract_tex_contents`. The loops in the source are methods with while/for loops, proved against specification functions.
- `JobParser`: `parse_job_input`.
- `GeminiClient`: the API-key check, the prompt f-string and the reply clean-up.
- `OutputHandler`: the staging steps. A `Workspace` class holds the file map as a field, and its methods change it in place, as the Python calls change the disk. Each method's result and new state are tied to a specification function (`WriteText`, `StagedTree`, `WriteBack`, `CompileOutcome`, `ProcessOutcome`). The properties are proved as lemmas about those functions.

The directory listing of the template base (`os.listdir` with `os.path.isdir`) is an input. So are the API key and what the two `pdflatex` passes leave in the temp folder.

## Model

| member | source | states |
|---|---|---|
| Text.SkipSpace | src/parser.py:19-20 | the forward whitespace scan stops at the first non-whitespace character at or after its start, or at the end |
| Text.SkipSpaceBack | src/parser.py:19-20 | the backward whitespace scan stops just after the last non-whitespace character before its start, or at 0 |
| Text.Strip | src/parser.py:19-20 | `str.strip()` removes exactly the leading and the trailing whitespace: the result is the slice of the input that starts at its first non-whitespace character, everything before and after that slice is whitespace, and the result neither starts nor ends with whitespace; it is empty exactly when the input is all whitespace; an already stripped string is unchanged |
| Text.StripIsBothSides | src/parser.py:19-20 | stripping both ends at once is stripping the left end and then the right end |
| Text.StripLeft | src/parser.py:19 | the leading-whitespace split: the result is a suffix, everything dropped is whitespace, and the result does not start with whitespace |
| Text.StripRight | src/parser.py:19 | the trailing-whitespace split: the result is a prefix, everything dropped is whitespace, and the result does not end with whitespace |
| Text.LowerChar | src/template_finder.py:8 | ASCII lower-casing of one character: `A`–`Z` move up by 32, everything else is unchanged |
| Text.Lower | src/template_finder.py:8 | `str.lower()`: same length, each character lowered on its own |
| Text.EmptyIsEverywhere | src/template_finder.py:12 | `"" in s` holds for every string |
| Text.ContainsTransitive | src/gemini_client.py:61 | an occurrence inside an occurrence is an occurrence |
| Text.ContainsCons | src/gemini_client.py:61 | the occurrences in `c + u` are the one at the front plus those in `u` |
| Text.Replace | src/gemini_client.py:61 | `str.replace` with an empty replacement never makes the text longer |
| Text.ReplaceAbsent | src/gemini_client.py:61 | replacing a pattern that does not occur returns the text unchanged |
| Text.ReplaceSkipsPrefix | src/gemini_client.py:61 | a prefix that holds no character able to start the pattern passes through replacement untouched |
| Text.NoFenceAfterRemoval | src/gemini_client.py:61 | after `.replace('```', '')` no "```" is left anywhere in the text |
| Text.LineLength | src/parser.py:13 | the first line's length: no `'\n'` before its last character, and it ends in `'\n'` unless it is the end of the text |
| Text.ReadLines | src/parser.py:12-13 | `readlines()`: the lines concatenate back to the text; each line is non-empty with `'\n'` at most at its end; every line but the last ends in `'\n'`; no lines exactly for empty text |
| Text.Concat | src/parser.py:20 | `"".join(lines)`: the first line is a prefix of the result, which is empty exactly when every line is |
| Text.ConcatAppend | src/parser.py:20 | joining two runs of lines is joining each run and concatenating the two texts |
| Text.FirstLineSplitsOff | src/parser.py:13 | a complete first line comes off intact, and the rest of the text is split on its own |
| Text.TwoLinesIffInnerNewline | src/parser.py:13-16 | there are at least two lines exactly when some `'\n'` is followed by more text |
| Text.Split | src/output_handler.py:152 | `split('\n')`: at least one piece, and no piece holds the separator |
| Text.SplitJoinRoundTrip | src/output_handler.py:152 | joining the pieces of a split with the separator gives back the text |
| Files.Join | src/output_handler.py:22 | `os.path.join(p, name)`: `dirname` gives `p` back and `basename` gives `name`; one component longer; `p` is a prefix |
| Files.NoOrphans | src/output_handler.py:32 | in a well-formed tree nothing lies below a path that does not exist |
| Files.ReadText | src/template_finder.py:59-65 | `open(p).read()` succeeds exactly on a readable file and gives its text |
| Files.WriteText | src/output_handler.py:58-64 | `open(p, 'w').write(t)` succeeds exactly when `p` is a writable file or a new name in an existing directory; `p` then holds `t`, every other node is unchanged, at most `p` is added, and the tree stays well formed |
| Files.MovedKeys | src/output_handler.py:32 | the paths of the source subtree, moved under the destination, are all present and come from the source |
| Files.CopiedSubtree | src/output_handler.py:32 | every copied node equals its source node, and every source node has a copy |
| Files.CopyTree | src/output_handler.py:32-36 | `shutil.copytree` succeeds exactly when the source is a directory and the destination does not exist |
| Files.CopyTreeIsCopy | src/output_handler.py:32 | after a copy the destination subtree is the image of the source subtree, and every path outside the destination is unchanged |
| Files.CopyTreePreservesTree | src/output_handler.py:32 | copying into a new name inside an existing directory keeps the tree well formed |
| Files.CopiedParentIsDir | src/output_handler.py:32 | every copied node's parent is a directory in the result |
| Files.CopiedParentIsCopiedDir | src/output_handler.py:32 | the parent of a copied node below the root of the copy is itself a copied directory |
| Files.MakeDirs | src/output_handler.py:112 | `os.makedirs(d, exist_ok=True)` fails exactly when a component on the way is a file; otherwise every component is a directory, existing nodes are kept, and only those directories are added |
| Files.MakeDirsPreservesTree | src/output_handler.py:112 | creating the directories keeps the tree well formed |
| Files.CopyTarget | src/output_handler.py:158 | `shutil.copy2`'s destination rule: inside `dst` under the source's basename when `dst` is a directory, `dst` itself otherwise |
| Files.CopyFile | src/output_handler.py:158 | `shutil.copy2` succeeds exactly when the source is readable and the target writable; the target (inside `dst` when `dst` is a directory) then holds the source node, and nothing else changes |
| TemplateFinder.FirstMatch | src/template_finder.py:11-12 | the chosen entry is a directory whose lowered name contains the lowered position; no earlier entry matches; none is chosen exactly when no entry matches |
| TemplateFinder.FirstExisting | src/template_finder.py:28-33 | the chosen name exists in the folder, no earlier name does, and none is chosen exactly when none exists |
| TemplateFinder.SkillsChoice | src/template_finder.py:24-33 | the chosen skills file exists in the folder and has one of the three priority names; none is chosen exactly when none of the three exists; `additional_skills.tex` is chosen whenever it exists |
| TemplateFinder.FindSkillsFile | src/template_finder.py:24-33 | the `for ... break` loop returns the skills file the priority rule selects |
| TemplateFinder.LocateTemplateAssets | src/template_finder.py:8-39 | error exactly when no folder matches or the match has an empty name; otherwise the root is base joined with the first matching folder; `experience` is set exactly when `experience.tex` exists and is then its path; `skills` is the priority choice |
| TemplateFinder.ReadBestEffort | src/template_finder.py:59-67 | the text is present exactly when the path is set, exists and is a readable file, and is then that file's text |
| TemplateFinder.ExtractTexContents | src/template_finder.py:51-69 | both keys are present; each keeps its asset path; each `raw` is the best-effort read of its own path alone, so one failure cannot affect the other key |
| TemplateFinder.EmptyPositionPicksFirstDirectory | src/template_finder.py:8-12 | with an empty position the choice is at index `k` exactly when `k` is the first directory in the listing |
| TemplateFinder.FoundIffSomeDirectoryMatches | src/template_finder.py:11-15 | with non-empty listing names, a folder is found exactly when some directory matches |
| TemplateFinder.HigherPriorityWins | src/template_finder.py:26-33 | an existing higher-priority skills file always beats a lower-priority one |
| TemplateFinder.TechnologiesBeforeSkills | src/template_finder.py:26-33 | without `additional_skills.tex`, an existing `technologies.tex` is chosen |
| TemplateFinder.MlPicksAml | src/template_finder.py:11-12 | folders `A_ML` and `B_Backend` with the position `ml`: `A_ML` is chosen |
| JobParser.ParseLines | src/parser.py:15-20 | error exactly when there are fewer than two lines; both fields are stripped |
| JobParser.ParseText | src/parser.py:12-20 | the parse of a file's text fails only with `MalformedInput`; on success the position and the description both occur in the text |
| JobParser.ParseJobInput | src/parser.py:9-13 | a missing file is `MissingInput`; an existing path that cannot be read as text is `ReadFailed`; otherwise the result is the parse of its text |
| JobParser.ParseSucceedsIffSecondLine | src/parser.py:13-16 | parsing succeeds exactly when some line break is followed by more text |
| JobParser.ParseSplitsFirstLine | src/parser.py:19-20 | for a complete first line and a non-empty rest, the position is the stripped line and the description is the stripped rest; neither depends on the other part |
| GeminiClient.InitializeGemini | src/gemini_client.py:13-25 | a client exists exactly when the key is set and non-empty, and it carries that key; otherwise `MissingApiKey` |
| GeminiClient.HolesContained | src/gemini_client.py:36-55 | each hole of a filled template, and its closing piece, occur in it |
| GeminiClient.SlotsContained | src/gemini_client.py:36-55 | the last two holes of a filled template each occur together with the pieces around them |
| GeminiClient.BuildPrompt | src/gemini_client.py:36-55 | the prompt contains the position, the description, both raw sections (a missing one rendered as `None`) and the instructions; the raw experience sits between its heading and the skills heading, and the raw skills between their heading and the instructions |
| GeminiClient.MissingSectionRendersNone | src/gemini_client.py:44-50 | a section with no raw text (`None`) is rendered as `None` in its own slot: the missing experience sits between the experience and skills headings, the missing skills between the skills heading and the instructions |
| GeminiClient.CleanResponse | src/gemini_client.py:61 | the cleaned reply has no surrounding whitespace and no "```" |
| GeminiClient.CleanFencedBody | src/gemini_client.py:61 | for a body without backticks, cleaning "```json" + body + "```" gives the stripped body |
| GeminiClient.CleanIdempotent | src/gemini_client.py:61 | cleaning a cleaned reply changes nothing |
| OutputHandler.TempFolderPath | src/output_handler.py:17-22 | the temp folder is a sibling of the base named basename + `_Temp`; for a non-empty base it neither contains nor lies inside the base |
| OutputHandler.StagedTree | src/output_handler.py:25-36 | an existing temp path (of any kind) is reused with nothing changed; staging fails exactly when it is absent and the base is not a directory |
| OutputHandler.StagingCopiesBase | src/output_handler.py:29-34 | a newly created temp folder holds a copy of every node of the base tree, only copies of base nodes, and nothing outside it changes |
| OutputHandler.TargetPath | src/output_handler.py:55-69 | the target lies directly in the temp folder and has the original file's basename |
| OutputHandler.WriteSection | src/output_handler.py:54-77 | one `if ...: try: write` block only adds or overwrites files, keeps the tree well formed, and records at most its own section |
| OutputHandler.WriteBack | src/output_handler.py:39-79 | `write_tailored_content` as a function: it removes nothing and keeps the tree well formed |
| OutputHandler.CanWriteAfterSibling | src/output_handler.py:58-77 | writing one file of the temp folder does not change whether another can be written |
| OutputHandler.WriteBackUpdated | src/output_handler.py:51-79 | `updated_files` holds exactly the sections whose text is non-empty, whose asset is set and whose target could be written, each mapped to its target |
| OutputHandler.WriteBackEffect | src/output_handler.py:58-77 | only the recorded targets are added or changed; each holds the text written to it last, and keeps its read permission |
| OutputHandler.WriteSectionStep | src/output_handler.py:54-64 | one section either writes its target and records it, or changes nothing |
| OutputHandler.SkippedSectionUntouched | src/output_handler.py:54-77 | a section whose text is missing or empty, or whose template has no such file, is skipped without failing: it is not recorded and write-back is the other section's write alone |
| OutputHandler.WriteBackKeepsWritability | src/output_handler.py:58-77 | after write-back, temp-folder paths are writable exactly as before |
| OutputHandler.WriteBackIdempotent | src/output_handler.py:39-79 | a second write-back with the same inputs leaves the files and `updated_files` the same |
| OutputHandler.WriteBackRewriteSame | src/output_handler.py:58-77 | rewriting the recorded targets with the same texts leaves every node as it was |
| OutputHandler.FinalPdfPath | src/output_handler.py:97-105 | the PDF is named basename(temp) + `.pdf` and sits in `output/pdf` under the temp folder's third ancestor |
| OutputHandler.ErrorLines | src/output_handler.py:152-154 | a line is reported exactly when it is a log line starting with `!`; never more lines than the log has |
| OutputHandler.ErrorLinesAppend | src/output_handler.py:152-154 | reporting keeps log order: the report of two stretches of log is the report of the first followed by that of the second |
| OutputHandler.PutFile | src/output_handler.py:124-140 | whatever a compiler pass writes keeps the tree well formed, removes nothing, adds at most its own path and changes no other node |
| OutputHandler.AfterCompiler | src/output_handler.py:121-140 | both passes together keep the tree well formed and remove nothing; of the compiler's outputs only `main.log` and `main.pdf` are represented, so in this model no other node changes |
| OutputHandler.LogErrorLines | src/output_handler.py:148-154 | the printed log lines are exactly the `'\n'`-separated pieces of the log that start with `!`, none holding a line break |
| OutputHandler.ReportedErrors | src/output_handler.py:144-155 | the failure report holds the `!` lines of `main.log` when it can be read, and nothing otherwise |
| OutputHandler.CompileOutcome | src/output_handler.py:82-170 | `compile_latex_to_pdf` as a function: the tree stays well formed; nothing is removed, and of the existing nodes only `main.log`, `main.pdf` and what lies at or below the final PDF path can change (a frame of the modelled compiler, which writes only those two files); a missing `main.tex` fails with `MissingMainTex` and changes nothing; a missing `main.pdf` after the passes always fails; a success returns the final PDF path, which exists |
| OutputHandler.ProcessOutcome | src/output_handler.py:173-208 | `process_output` as a function: the tree stays well formed and nothing is removed; failed staging is `StagingFailed` with nothing changed; after staging every staged and written node survives unless compilation may write it, so a failed run leaves the staged copy; a success holds the temp folder, `WriteBack`'s `updated_files` for the staged tree, the base and the final PDF path, which exists |
| OutputHandler.ProcessComposesStages | src/output_handler.py:188-197 | after staging, the outcome is compilation run on the written-back tree: the same file map, and failure exactly when compilation fails, with its error |
| OutputHandler.EarlierPdfSurvives | src/output_handler.py:143-144 | a `main.pdf` left by an earlier run survives a pass that writes none, and unchanged |
| OutputHandler.Workspace.WriteFile | src/output_handler.py:58-64 | a write happens exactly when the path can be written; its effect is `WriteText` |
| OutputHandler.Workspace.FindOrCreateTempFolder | src/output_handler.py:6-36 | returns the temp path and moves the tree to `StagedTree`, or fails with `StagingFailed` and changes nothing |
| OutputHandler.Workspace.WriteTailoredContent | src/output_handler.py:39-79 | the new tree and the returned `updated_files` are exactly `WriteBack` of the old tree |
| OutputHandler.Workspace.CompileLatexToPdf | src/output_handler.py:82-170 | the result and the new tree are exactly `CompileOutcome` of the old tree; spelled out, a missing `main.tex` fails before anything changes; then `output/pdf` is created or the call fails; after the passes a missing `main.pdf` always fails, with the log's `!` lines; otherwise `main.pdf` is copied and the final path is returned, or the copy failure is reported |
| OutputHandler.Workspace.ProcessOutput | src/output_handler.py:173-208 | the result and the new tree are exactly `ProcessOutcome` of the old tree: staging, write-back and compilation in order; on success the result holds the base, the temp folder, `WriteBack`'s `updated_files` for the staged tree and the final PDF path, which exists |

## Left out

- The `pdflatex` runs are represented by two of the files they leave behind: a `CompilerOutput` with the optional contents of `main.pdf` and `main.log`. The subprocess itself, its 60-second timeout and the remapping of exceptions into messages are not modelled, and neither is whether LaTeX succeeds.
- `OutputHandler.Workspace.CompileLatexToPdf` collapses every failure after `main.tex` was found into three error kinds (`OutputDirFailed`, `CompilationFailed`, `PdfCopyFailed`); the exception messages are not modelled. `CompilationFailed` carries the `!` lines the source prints. An unreadable or missing `main.log` gives no lines, where the source raises a different `RuntimeError` or prints nothing.
- `OutputHandler.AfterCompiler`: pdflatex's other outputs in the temp folder (`main.aux`, which the second pass reads back, `main.out` and the like) are not modelled. The `CompileKeeps` frame of `CompileOutcome` and `ProcessOutcome` therefore holds of the model's compiler only. In particular a `main.aux` copied from the template is not overwritten in the model.
- `Files.WriteText`: a write that fails after `open(p, 'w')` has already truncated the file is not modelled. Examples are an encoding error on a lone surrogate, which `json.loads` can return and a Dafny `char` cannot hold, or an `OSError` when the file is flushed. Python leaves the target empty or partial and the section unrecorded; in the model a failed write changes nothing. The unchanged-state case of `WriteSectionStep` and the frame of `WriteBackEffect` rest on this.
- `Files.CanWrite`: directories carry no permissions. Creating a name in a read-only directory raises in Python (`open(p, 'w')`, the destination of `shutil.copytree`, `os.makedirs`) but succeeds in the model.
- The Gemini request (`generate_content`), `genai.Client` and `json.loads` are foreign services and libraries. The model stops at the prompt text and the cleaned reply text.
- `TemplateFinder.LocateTemplateAssets`: `os.listdir` raises `FileNotFoundError` when the base directory does not exist (src/template_finder.py:11). The listing is an input here, so that error cannot arise in the model.
- The default arguments of `parse_job_input` (src/parser.py:3) and `locate_template_assets` (src/template_finder.py:3) are not modelled. Every argument is passed explicitly.
- `load_dotenv` and `os.getenv` read the process environment. The key is an input instead.
- src/main.py is not part of this model. It only calls the modelled functions in order, inside prints and a catch-all `except`.
- `print` output and the debug echo of the API key are not modelled.
- `os.path.abspath` normalisation is not modelled. Paths are component sequences with no `.`, `..` or trailing separator.
- `Text.Lower`: does not model Unicode case mapping; only ASCII `A`–`Z` are lowered.
- Universal-newline translation of `\r\n` and `\r` on reading is not modelled. File texts are taken as already translated.
- `Files.CopyTree`: an all-or-nothing copy; the error collection of `shutil.copytree`, which copies what it can and then raises, is not modelled.
- `Files.MakeDirs`: all-or-nothing; a partial creation before a failing component is not modelled.
- `Files.CopyFile`: copies the whole node, so the permission bits that `shutil.copy2` copies travel with it; time stamps are not modelled.
- Tailored values other than strings (`tailored_data.get` of a non-string JSON value) are not modelled. The tailored map holds strings, and "truthy" is "non-empty".
- Concurrent runs against the same `_Temp` folder are not modelled; the code has no locking.
- The `__main__` test blocks are not modelled.
