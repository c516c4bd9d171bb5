/**
 * Output staging: find or create the `<base>_Temp` copy of the template, write
 * the tailored sections into it, compile it and copy the PDF to `output/pdf`.
 */
module OutputHandler {
  import opened Common
  import opened Text
  import opened Files
  import opened TemplateFinder

  const TempSuffix: string := "_Temp"
  const MainTex: string := "main.tex"
  const MainPdf: string := "main.pdf"
  const MainLog: string := "main.log"
  const PdfExtension: string := ".pdf"

  /** The rewritten sections as the language model returned them. */
  type Tailored = map<Section, string>

  /** The dictionary `process_output` returns. */
  datatype StagingResult = StagingResult(
    tempFolder: Path, updatedFiles: map<Section, Path>, baseFolder: Path, pdfPath: Path)

  // ---------------------------------------------------------------------------
  // The temp folder

  /** `<parent of base>/<basename of base>_Temp`: a sibling of the base folder, never the base itself. */
  function TempFolderPath(base: Path): (temp: Path)
    ensures Dirname(temp) == Dirname(base)
    ensures Basename(temp) == Basename(base) + TempSuffix
    ensures base != [] ==> |temp| == |base| && !(temp <= base) && !(base <= temp)
  {
    Join(Dirname(base), Basename(base) + TempSuffix)
  }

  /**
   * The file map once the temp folder is in place: unchanged when `<base>_Temp`
   * already exists (as anything), else the base tree copied there; `None` when the copy raises.
   */
  function StagedTree(fs: FileMap, base: Path): (r: Option<FileMap>)
    ensures TempFolderPath(base) in fs ==> r == Some(fs)
    ensures r.None? <==> TempFolderPath(base) !in fs && !IsDir(fs, base)
  {
    var temp := TempFolderPath(base);
    if temp in fs then Some(fs) else CopyTree(fs, base, temp)
  }

  /**
   * A freshly created temp folder is a copy of the base folder: every node below
   * the base reappears below the temp folder, and nothing outside the temp folder changes.
   */
  lemma StagingCopiesBase(fs: FileMap, base: Path)
    requires TreeClosed(fs) && TempFolderPath(base) !in fs && StagedTree(fs, base).Some?
    ensures var temp := TempFolderPath(base);
      var n := StagedTree(fs, base).value;
      && (forall p :: p in fs && base <= p ==> temp + p[|base|..] in n && n[temp + p[|base|..]] == fs[p])
      && (forall q :: q in n && temp <= q ==> base + q[|temp|..] in fs)
      && (forall q :: q in fs && !(temp <= q) ==> q in n && n[q] == fs[q])
      && (forall q :: q in n && !(temp <= q) ==> q in fs)
  {
    CopyTreeIsCopy(fs, base, TempFolderPath(base));
  }

  // ---------------------------------------------------------------------------
  // Write-back

  /** A section is written when its tailored text is non-empty and the template has that file. */
  predicate ShouldWrite(tailored: Tailored, assets: AssetMap, s: Section) {
    s in tailored && tailored[s] != "" && assets.PathOf(s).Some?
  }

  /** The file of the same name in the temp folder. */
  function TargetPath(temp: Path, assets: AssetMap, s: Section): (p: Path)
    requires assets.PathOf(s).Some?
    ensures Dirname(p) == temp && Basename(p) == Basename(assets.PathOf(s).value)
  {
    Join(temp, Basename(assets.PathOf(s).value))
  }

  /** The file map together with the `updated_files` dictionary built so far. */
  datatype Staged = Staged(nodes: FileMap, updated: map<Section, Path>)

  /**
   * One `if ...: try: open(target, 'w').write(...)` block; a failed write is swallowed.
   * It only adds or overwrites files, and records at most its own section.
   */
  function WriteSection(st: Staged, temp: Path, tailored: Tailored, assets: AssetMap, s: Section): (r: Staged)
    ensures TreeClosed(st.nodes) ==> TreeClosed(r.nodes)
    ensures st.nodes.Keys <= r.nodes.Keys
    ensures st.updated.Keys <= r.updated.Keys <= st.updated.Keys + {s}
  {
    if !ShouldWrite(tailored, assets, s) then st
    else
      match WriteText(st.nodes, TargetPath(temp, assets, s), tailored[s])
      case None => st
      case Some(n) => Staged(n, st.updated[s := TargetPath(temp, assets, s)])
  }

  /**
   * `write_tailored_content`: the experience block, then the skills block. Nothing
   * is removed and the tree stays well formed.
   */
  function WriteBack(fs: FileMap, temp: Path, tailored: Tailored, assets: AssetMap): (r: Staged)
    ensures TreeClosed(fs) ==> TreeClosed(r.nodes)
    ensures fs.Keys <= r.nodes.Keys
  {
    var afterExperience := WriteSection(Staged(fs, map[]), temp, tailored, assets, Experience);
    WriteSection(afterExperience, temp, tailored, assets, Skills)
  }

  /** Writing one target of the temp folder does not change whether another can be written. */
  lemma CanWriteAfterSibling(fs: FileMap, temp: Path, p: Path, q: Path, text: string)
    requires Dirname(p) == temp && Dirname(q) == temp && p != [] && q != []
    requires WriteText(fs, p, text).Some?
    ensures CanWrite(WriteText(fs, p, text).value, q) == CanWrite(fs, q)
  {
    var n := WriteText(fs, p, text).value;
    if p != q {
      assert temp != p by { assert |temp| < |p|; }
      assert IsDir(n, temp) == IsDir(fs, temp);
    }
  }

  /**
   * `updated_files` holds exactly the sections that were due to be written and
   * whose target could be written, each mapped to its target path.
   */
  lemma {:induction false} WriteBackUpdated(fs: FileMap, temp: Path, tailored: Tailored, assets: AssetMap)
    ensures var st := WriteBack(fs, temp, tailored, assets);
      forall s :: s in st.updated <==>
        ShouldWrite(tailored, assets, s) && CanWrite(fs, TargetPath(temp, assets, s))
    ensures var st := WriteBack(fs, temp, tailored, assets);
      forall s :: s in st.updated ==> assets.PathOf(s).Some? && st.updated[s] == TargetPath(temp, assets, s)
  {
    var st1 := WriteSection(Staged(fs, map[]), temp, tailored, assets, Experience);
    var st := WriteSection(st1, temp, tailored, assets, Skills);
    WriteSectionStep(Staged(fs, map[]), temp, tailored, assets, Experience);
    WriteSectionStep(st1, temp, tailored, assets, Skills);
    forall s ensures s in st.updated <==> ShouldWrite(tailored, assets, s) && CanWrite(fs, TargetPath(temp, assets, s)) {
      if s == Skills && ShouldWrite(tailored, assets, Skills) && st1.nodes != fs {
        CanWriteAfterSibling(fs, temp, TargetPath(temp, assets, Experience),
          TargetPath(temp, assets, Skills), tailored[Experience]);
      }
    }
  }

  /**
   * Write-back touches only the targets it reports: every other path keeps its
   * node, and each reported target holds the text written last to it.
   */
  lemma {:induction false} WriteBackEffect(fs: FileMap, temp: Path, tailored: Tailored, assets: AssetMap)
    ensures var st := WriteBack(fs, temp, tailored, assets);
      forall q :: q in st.nodes <==> q in fs || q in st.updated.Values
    ensures var st := WriteBack(fs, temp, tailored, assets);
      forall q :: q in fs && q !in st.updated.Values ==> st.nodes[q] == fs[q]
    ensures var st := WriteBack(fs, temp, tailored, assets);
      Skills in st.updated ==>
        var p := st.updated[Skills];
        st.nodes[p] == Written(fs, p, tailored[Skills])
    ensures var st := WriteBack(fs, temp, tailored, assets);
      Experience in st.updated && !(Skills in st.updated && st.updated[Skills] == st.updated[Experience]) ==>
        var p := st.updated[Experience];
        st.nodes[p] == Written(fs, p, tailored[Experience])
  {
    var st1 := WriteSection(Staged(fs, map[]), temp, tailored, assets, Experience);
    var st := WriteSection(st1, temp, tailored, assets, Skills);
    WriteSectionStep(Staged(fs, map[]), temp, tailored, assets, Experience);
    WriteSectionStep(st1, temp, tailored, assets, Skills);
    if st1.updated == map[] {
      assert st1.nodes == fs;
      if st.updated != st1.updated {
        assert st.updated.Values == {st.updated[Skills]};
      }
    } else {
      var pE := st1.updated[Experience];
      assert st1.updated.Values == {pE};
      if st.updated != st1.updated {
        var pS := st.updated[Skills];
        assert st.updated == map[Experience := pE, Skills := pS];
        assert st.updated.Values == {pE, pS} by {
          forall v | v in st.updated.Values ensures v == pE || v == pS {
            var k :| k in st.updated && st.updated[k] == v;
          }
          assert st.updated[Experience] == pE && st.updated[Skills] == pS;
        }
        assert pS in st1.nodes && pS != pE ==> pS in fs;
      }
    }
  }

  /** One section's write either changes nothing or writes its target and records it. */
  lemma WriteSectionStep(st: Staged, temp: Path, tailored: Tailored, assets: AssetMap, s: Section)
    ensures var st' := WriteSection(st, temp, tailored, assets, s);
      if ShouldWrite(tailored, assets, s) && CanWrite(st.nodes, TargetPath(temp, assets, s)) then
        var p := TargetPath(temp, assets, s);
        && st'.nodes == st.nodes[p := Written(st.nodes, p, tailored[s])]
        && st'.updated == st.updated[s := p]
      else st' == st
  {
  }

  /**
   * A section with no tailored text, or whose template has no such file, is skipped
   * without failing: write-back is then the other section's write alone.
   */
  lemma SkippedSectionUntouched(fs: FileMap, temp: Path, tailored: Tailored, assets: AssetMap, s: Section)
    requires !ShouldWrite(tailored, assets, s)
    ensures s !in WriteBack(fs, temp, tailored, assets).updated
    ensures s == Skills ==> WriteBack(fs, temp, tailored, assets) == WriteSection(Staged(fs, map[]), temp, tailored, assets, Experience)
    ensures s == Experience ==> WriteBack(fs, temp, tailored, assets) == WriteSection(Staged(fs, map[]), temp, tailored, assets, Skills)
  {
    var st1 := WriteSection(Staged(fs, map[]), temp, tailored, assets, Experience);
    WriteSectionStep(Staged(fs, map[]), temp, tailored, assets, Experience);
    WriteSectionStep(st1, temp, tailored, assets, Skills);
  }

  /** After write-back, a path of the temp folder can be written exactly when it could before. */
  lemma WriteBackKeepsWritability(fs: FileMap, temp: Path, tailored: Tailored, assets: AssetMap, p: Path)
    requires p != [] && Dirname(p) == temp
    ensures CanWrite(WriteBack(fs, temp, tailored, assets).nodes, p) == CanWrite(fs, p)
  {
    var st := WriteBack(fs, temp, tailored, assets);
    WriteBackUpdated(fs, temp, tailored, assets);
    WriteBackEffect(fs, temp, tailored, assets);
    if s :| s in st.updated && st.updated[s] == p {
      assert CanWrite(fs, TargetPath(temp, assets, s));
    } else {
      assert p !in st.updated.Values;
      assert temp !in st.updated.Values;
      assert IsDir(st.nodes, temp) == IsDir(fs, temp);
    }
  }

  /** Running write-back a second time with the same inputs changes nothing. */
  lemma WriteBackIdempotent(fs: FileMap, temp: Path, tailored: Tailored, assets: AssetMap)
    ensures var st := WriteBack(fs, temp, tailored, assets);
      WriteBack(st.nodes, temp, tailored, assets) == st
  {
    var st := WriteBack(fs, temp, tailored, assets);
    var st2 := WriteBack(st.nodes, temp, tailored, assets);
    WriteBackUpdated(fs, temp, tailored, assets);
    WriteBackUpdated(st.nodes, temp, tailored, assets);
    forall s | ShouldWrite(tailored, assets, s)
      ensures CanWrite(st.nodes, TargetPath(temp, assets, s)) == CanWrite(fs, TargetPath(temp, assets, s))
    {
      WriteBackKeepsWritability(fs, temp, tailored, assets, TargetPath(temp, assets, s));
    }
    assert st2.updated == st.updated;
    WriteBackRewriteSame(fs, temp, tailored, assets);
  }

  /** Rewriting the reported targets with the same texts leaves every node as it was. */
  lemma WriteBackRewriteSame(fs: FileMap, temp: Path, tailored: Tailored, assets: AssetMap)
    requires var st := WriteBack(fs, temp, tailored, assets);
      WriteBack(st.nodes, temp, tailored, assets).updated == st.updated
    ensures var st := WriteBack(fs, temp, tailored, assets);
      WriteBack(st.nodes, temp, tailored, assets).nodes == st.nodes
  {
    var st := WriteBack(fs, temp, tailored, assets);
    var st2 := WriteBack(st.nodes, temp, tailored, assets);
    WriteBackEffect(fs, temp, tailored, assets);
    WriteBackEffect(st.nodes, temp, tailored, assets);
    assert st.updated.Values <= st.nodes.Keys;
    assert st2.nodes.Keys == st.nodes.Keys;
    forall q | q in st.nodes ensures st2.nodes[q] == st.nodes[q] {
      if q in st.updated.Values {
        assert q in st.nodes;
      }
    }
  }

  // ---------------------------------------------------------------------------
  // Compilation: names, paths and the log scan

  /** `<basename of temp>.pdf`. */
  function PdfName(temp: Path): string {
    Basename(temp) + PdfExtension
  }

  /** Three `dirname` steps up from the temp folder. */
  function ProjectRoot(temp: Path): Path {
    Dirname(Dirname(Dirname(temp)))
  }

  function PdfOutputDir(temp: Path): Path {
    ProjectRoot(temp) + ["output", "pdf"]
  }

  /** `<project root>/output/pdf/<temp name>.pdf`, the project root being the temp folder's third ancestor. */
  function FinalPdfPath(temp: Path): (p: Path)
    ensures Basename(p) == Basename(temp) + PdfExtension
    ensures |temp| >= 3 ==> p == temp[..|temp| - 3] + ["output", "pdf", temp[|temp| - 1] + PdfExtension]
    ensures |temp| < 3 ==> p == ["output", "pdf", PdfName(temp)]
  {
    Join(PdfOutputDir(temp), PdfName(temp))
  }

  /** `line.startswith('!')`. */
  predicate IsErrorLine(line: string) {
    [ '!' ] <= line
  }

  /** The lines of the LaTeX log the failure report prints, in log order. */
  function ErrorLines(lines: seq<string>): (errors: seq<string>)
    ensures forall l :: l in errors <==> l in lines && IsErrorLine(l)
    ensures |errors| <= |lines|
  {
    if lines == [] then []
    else (if IsErrorLine(lines[0]) then [lines[0]] else []) + ErrorLines(lines[1..])
  }

  /** The scan respects order: the errors of two stretches of log are the errors of each, in turn. */
  lemma {:induction false} ErrorLinesAppend(a: seq<string>, b: seq<string>)
    ensures ErrorLines(a + b) == ErrorLines(a) + ErrorLines(b)
  {
    if a == [] {
      assert a + b == b;
    } else {
      assert (a + b)[1..] == a[1..] + b;
      ErrorLinesAppend(a[1..], b);
    }
  }

  /**
   * `for line in log_content.split('\n'): if line.startswith('!')`: the reported
   * lines are exactly the log's lines that start with `!`, none holding a line break.
   */
  function LogErrorLines(log: string): (errors: seq<string>)
    ensures forall l :: l in errors <==> l in Split(log, '\n') && IsErrorLine(l)
    ensures forall i :: 0 <= i < |errors| ==> IsErrorLine(errors[i]) && '\n' !in errors[i]
  {
    var pieces := Split(log, '\n');
    forall l | l in pieces ensures '\n' !in l {
      var i :| 0 <= i < |pieces| && pieces[i] == l;
      assert forall j :: 0 <= j < |l| ==> l[j] != '\n';
    }
    ErrorLines(pieces)
  }

  /** What the two pdflatex runs write into the temp folder (`None`: nothing written). */
  datatype CompilerOutput = CompilerOutput(pdf: Option<string>, log: Option<string>)

  function PutFile(fs: FileMap, p: Path, content: Option<string>): (n: FileMap)
    ensures TreeClosed(fs) ==> TreeClosed(n)
    ensures fs.Keys <= n.Keys && n.Keys <= fs.Keys + {p}
    ensures forall q :: q in fs && q != p ==> n[q] == fs[q]
  {
    if content.None? then fs
    else
      match WriteText(fs, p, content.value)
      case None => fs
      case Some(n) => n
  }

  /** The file map after both pdflatex passes. */
  function AfterCompiler(fs: FileMap, temp: Path, out: CompilerOutput): (n: FileMap)
    ensures TreeClosed(fs) ==> TreeClosed(n)
    ensures fs.Keys <= n.Keys
    ensures forall q :: q in fs && q != Join(temp, MainLog) && q != Join(temp, MainPdf) ==> n[q] == fs[q]
  {
    PutFile(PutFile(fs, Join(temp, MainLog), out.log), Join(temp, MainPdf), out.pdf)
  }

  /**
   * The check for `main.pdf` looks only at presence: a `main.pdf` left by an
   * earlier run survives a pass that writes none, and then counts as a result.
   */
  lemma EarlierPdfSurvives(fs: FileMap, temp: Path, log: Option<string>)
    requires Join(temp, MainPdf) in fs
    ensures var n := AfterCompiler(fs, temp, CompilerOutput(None, log));
      Join(temp, MainPdf) in n && n[Join(temp, MainPdf)] == fs[Join(temp, MainPdf)]
  {
  }

  /** The failure report: the `!` lines of a readable `main.log`, none otherwise. */
  function ReportedErrors(fs: FileMap, temp: Path): (errors: seq<string>)
    ensures ReadText(fs, Join(temp, MainLog)).None? ==> errors == []
    ensures ReadText(fs, Join(temp, MainLog)).Some? ==>
      forall l :: l in errors <==> l in Split(fs[Join(temp, MainLog)].text, '\n') && IsErrorLine(l)
  {
    match ReadText(fs, Join(temp, MainLog))
    case None => []
    case Some(log) => LogErrorLines(log)
  }

  /** What a stage leaves behind: its result and the file map after it. */
  datatype Outcome<T> = Outcome(result: Result<T>, nodes: FileMap)

  /**
   * `compile_latex_to_pdf(temp)` as a function of the file map, the compiler's
   * effect given as `out`. Nothing is removed; only `main.log`, `main.pdf`, the
   * directories of `output/pdf` and what lies at or below the final PDF path can
   * change; a missing `main.tex` changes nothing; whenever `main.pdf` is missing
   * at the end the call has failed; and a success names the final PDF, which exists.
   */
  function CompileOutcome(fs: FileMap, temp: Path, out: CompilerOutput): (c: Outcome<Path>)
    ensures TreeClosed(fs) ==> TreeClosed(c.nodes)
    ensures CompileKeeps(fs, c.nodes, temp)
    ensures Join(temp, MainTex) !in fs ==> c == Outcome(Err(MissingMainTex), fs)
    ensures Join(temp, MainPdf) !in c.nodes ==> c.result.Err?
    ensures c.result.Ok? ==> Join(temp, MainTex) in fs
    ensures c.result.Ok? ==> c.result.value == FinalPdfPath(temp) && FinalPdfPath(temp) in c.nodes
  {
    var pdf := Join(temp, MainPdf);
    var finalPdf := FinalPdfPath(temp);
    if Join(temp, MainTex) !in fs then Outcome(Err(MissingMainTex), fs)
    else
      match MakeDirs(fs, PdfOutputDir(temp))
      case None => Outcome(Err(OutputDirFailed), fs)
      case Some(made) =>
        assert TreeClosed(fs) ==> TreeClosed(made) by {
          if TreeClosed(fs) {
            MakeDirsPreservesTree(fs, PdfOutputDir(temp));
          }
        }
        var compiled := AfterCompiler(made, temp, out);
        if pdf !in compiled then Outcome(Err(CompilationFailed(ReportedErrors(compiled, temp))), compiled)
        else
          match CopyFile(compiled, pdf, finalPdf)
          case None => Outcome(Err(PdfCopyFailed), compiled)
          case Some(copied) =>
            assert finalPdf <= CopyTarget(compiled, pdf, finalPdf);
            Outcome(Ok(finalPdf), copied)
  }

  /**
   * `process_output(assets, tailored)` as a function of the file map: staging,
   * then write-back on the staged tree, then compilation on the written tree.
   * Nothing is ever removed, so a failed run leaves the staged copy in place, and
   * every file the write-back produced survives compilation unless it is
   * `main.log`, `main.pdf` or lies at the final PDF path.
   */
  function ProcessOutcome(fs: FileMap, assets: AssetMap, tailored: Tailored, out: CompilerOutput)
    : (p: Outcome<StagingResult>)
    ensures TreeClosed(fs) ==> TreeClosed(p.nodes)
    ensures fs.Keys <= p.nodes.Keys
    ensures StagedTree(fs, assets.folderRoot).None? ==> p == Outcome(Err(StagingFailed), fs)
    ensures StagedTree(fs, assets.folderRoot).Some? ==>
      StagedTree(fs, assets.folderRoot).value.Keys <= p.nodes.Keys
    ensures StagedTree(fs, assets.folderRoot).Some? ==>
      CompileKeeps(WriteBack(StagedTree(fs, assets.folderRoot).value, TempFolderPath(assets.folderRoot),
        tailored, assets).nodes, p.nodes, TempFolderPath(assets.folderRoot))
    ensures p.result.Ok? ==>
      && StagedTree(fs, assets.folderRoot).Some?
      && p.result.value == StagingResult(
           TempFolderPath(assets.folderRoot),
           WriteBack(StagedTree(fs, assets.folderRoot).value, TempFolderPath(assets.folderRoot),
             tailored, assets).updated,
           assets.folderRoot,
           FinalPdfPath(TempFolderPath(assets.folderRoot)))
      && p.result.value.pdfPath in p.nodes
  {
    var base := assets.folderRoot;
    var temp := TempFolderPath(base);
    match StagedTree(fs, base)
    case None => Outcome(Err(StagingFailed), fs)
    case Some(staged) =>
      assert TreeClosed(fs) ==> TreeClosed(staged) by {
        if TreeClosed(fs) && temp !in fs {
          CopyTreePreservesTree(fs, base, temp);
        }
      }
      var written := WriteBack(staged, temp, tailored, assets);
      var c := CompileOutcome(written.nodes, temp, out);
      if c.result.Err? then Outcome(Err(c.result.error), c.nodes)
      else Outcome(Ok(StagingResult(temp, written.updated, base, c.result.value)), c.nodes)
  }

  /**
   * After staging, `process_output` is compilation run on the written-back tree: it
   * leaves the same file map, fails exactly when compilation fails and then with
   * the same error.
   */
  lemma ProcessComposesStages(fs: FileMap, assets: AssetMap, tailored: Tailored, out: CompilerOutput)
    requires StagedTree(fs, assets.folderRoot).Some?
    ensures var temp := TempFolderPath(assets.folderRoot);
      var c := CompileOutcome(WriteBack(StagedTree(fs, assets.folderRoot).value, temp, tailored, assets).nodes, temp, out);
      var p := ProcessOutcome(fs, assets, tailored, out);
      && p.nodes == c.nodes
      && (p.result.Err? <==> c.result.Err?)
      && (c.result.Err? ==> p.result.error == c.result.error)
  {
  }

  /** The paths compilation may write: the two compiler outputs and what lies at or below the final PDF path. */
  predicate CompilerMayWrite(temp: Path, q: Path) {
    q == Join(temp, MainLog) || q == Join(temp, MainPdf) || FinalPdfPath(temp) <= q
  }

  /** Every node of `before` is still in `after`, and unchanged unless compilation may write it. */
  predicate CompileKeeps(before: FileMap, after: FileMap, temp: Path) {
    && before.Keys <= after.Keys
    && forall q :: q in before && !CompilerMayWrite(temp, q) ==> after[q] == before[q]
  }

  // ---------------------------------------------------------------------------
  // The workspace: the filesystem the stager changes in place

  class Workspace {
    var nodes: FileMap

    ghost predicate Valid()
      reads this
    {
      TreeClosed(nodes)
    }

    constructor (initial: FileMap)
      requires TreeClosed(initial)
      ensures Valid() && nodes == initial
    {
      nodes := initial;
    }

    /** `open(p, 'w').write(text)` inside a `try` that swallows the failure. */
    method WriteFile(p: Path, text: string) returns (ok: bool)
      requires Valid()
      modifies this
      ensures Valid()
      ensures ok == CanWrite(old(nodes), p)
      ensures nodes == if ok then WriteText(old(nodes), p, text).value else old(nodes)
    {
      var written := WriteText(nodes, p, text);
      ok := written.Some?;
      if ok {
        nodes := written.value;
      }
    }

    /** `find_or_create_temp_folder(base)`: reuse an existing `<base>_Temp`, else copy the base into it. */
    method FindOrCreateTempFolder(base: Path) returns (r: Result<Path>)
      requires Valid()
      modifies this
      ensures Valid()
      ensures StagedTree(old(nodes), base).None? ==> r == Err(StagingFailed) && nodes == old(nodes)
      ensures StagedTree(old(nodes), base).Some? ==>
        r == Ok(TempFolderPath(base)) && nodes == StagedTree(old(nodes), base).value
    {
      var temp := TempFolderPath(base);
      if temp in nodes {
        return Ok(temp);
      }
      var copied := CopyTree(nodes, base, temp);
      if copied.None? {
        return Err(StagingFailed);
      }
      CopyTreePreservesTree(nodes, base, temp);
      nodes := copied.value;
      return Ok(temp);
    }

    /** `write_tailored_content(temp, tailored, assets)`. */
    method WriteTailoredContent(temp: Path, tailored: Tailored, assets: AssetMap)
      returns (updated: map<Section, Path>)
      requires Valid()
      modifies this
      ensures Valid()
      ensures Staged(nodes, updated) == WriteBack(old(nodes), temp, tailored, assets)
    {
      updated := map[];
      if ShouldWrite(tailored, assets, Experience) {
        var target := TargetPath(temp, assets, Experience);
        var ok := WriteFile(target, tailored[Experience]);
        if ok {
          updated := updated[Experience := target];
        }
      }
      if ShouldWrite(tailored, assets, Skills) {
        var target := TargetPath(temp, assets, Skills);
        var ok := WriteFile(target, tailored[Skills]);
        if ok {
          updated := updated[Skills := target];
        }
      }
    }

    /**
     * `compile_latex_to_pdf(temp)`, the compiler's effect given as `out`: check
     * `main.tex`, create `output/pdf`, run the compiler, then either report the
     * log's error lines or copy `main.pdf` to the final path.
     */
    method CompileLatexToPdf(temp: Path, out: CompilerOutput) returns (r: Result<Path>)
      requires Valid()
      modifies this
      ensures Valid()
      ensures Outcome(r, nodes) == CompileOutcome(old(nodes), temp, out)
      ensures Join(temp, MainTex) !in old(nodes) ==> r == Err(MissingMainTex) && nodes == old(nodes)
      ensures Join(temp, MainTex) in old(nodes) && MakeDirs(old(nodes), PdfOutputDir(temp)).None? ==>
        r == Err(OutputDirFailed) && nodes == old(nodes)
      ensures Join(temp, MainTex) in old(nodes) && MakeDirs(old(nodes), PdfOutputDir(temp)).Some? ==>
        var compiled := AfterCompiler(MakeDirs(old(nodes), PdfOutputDir(temp)).value, temp, out);
        var pdf := Join(temp, MainPdf);
        && (pdf !in compiled ==> r == Err(CompilationFailed(ReportedErrors(compiled, temp))) && nodes == compiled)
        && (pdf in compiled && CopyFile(compiled, pdf, FinalPdfPath(temp)).None? ==>
              r == Err(PdfCopyFailed) && nodes == compiled)
        && (pdf in compiled && CopyFile(compiled, pdf, FinalPdfPath(temp)).Some? ==>
              r == Ok(FinalPdfPath(temp)) && nodes == CopyFile(compiled, pdf, FinalPdfPath(temp)).value)
    {
      var mainTex := Join(temp, MainTex);
      var finalPdf := FinalPdfPath(temp);
      if mainTex !in nodes {
        return Err(MissingMainTex);
      }
      var made := MakeDirs(nodes, PdfOutputDir(temp));
      if made.None? {
        return Err(OutputDirFailed);
      }
      MakeDirsPreservesTree(nodes, PdfOutputDir(temp));
      nodes := AfterCompiler(made.value, temp, out);
      var tempPdf := Join(temp, MainPdf);
      if tempPdf !in nodes {
        return Err(CompilationFailed(ReportedErrors(nodes, temp)));
      }
      var copied := CopyFile(nodes, tempPdf, finalPdf);
      if copied.None? {
        return Err(PdfCopyFailed);
      }
      nodes := copied.value;
      return Ok(finalPdf);
    }

    /** `process_output(assets, tailored)`: stage, write back, compile, in that order. */
    method ProcessOutput(assets: AssetMap, tailored: Tailored, out: CompilerOutput)
      returns (r: Result<StagingResult>)
      requires Valid()
      modifies this
      ensures Valid()
      ensures Outcome(r, nodes) == ProcessOutcome(old(nodes), assets, tailored, out)
      ensures StagedTree(old(nodes), assets.folderRoot).None? ==> r == Err(StagingFailed) && nodes == old(nodes)
      ensures r.Ok? ==>
        && StagedTree(old(nodes), assets.folderRoot).Some?
        && r.value.baseFolder == assets.folderRoot
        && r.value.tempFolder == TempFolderPath(assets.folderRoot)
        && r.value.updatedFiles == WriteBack(StagedTree(old(nodes), assets.folderRoot).value,
             r.value.tempFolder, tailored, assets).updated
        && r.value.pdfPath == FinalPdfPath(r.value.tempFolder)
        && r.value.pdfPath in nodes
      ensures r.Ok? ==> forall s :: s in r.value.updatedFiles ==>
        ShouldWrite(tailored, assets, s) && r.value.updatedFiles[s] == TargetPath(r.value.tempFolder, assets, s)
    {
      var base := assets.folderRoot;
      var staged := FindOrCreateTempFolder(base);
      if staged.Err? {
        return Err(staged.error);
      }
      var temp := staged.value;
      ghost var beforeWrite := nodes;
      var updated := WriteTailoredContent(temp, tailored, assets);
      WriteBackUpdated(beforeWrite, temp, tailored, assets);
      var pdf := CompileLatexToPdf(temp, out);
      if pdf.Err? {
        return Err(pdf.error);
      }
      return Ok(StagingResult(temp, updated, base, pdf.value));
    }
  }
}
