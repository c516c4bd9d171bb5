/**
 * Template discovery: choose the template folder whose name matches the job
 * position, pick its experience and skills files, and read them best-effort.
 */
module TemplateFinder {
  import opened Common
  import opened Text
  import opened Files

  /** One name returned by `os.listdir(base)`, with what `os.path.isdir` says of it. */
  datatype Entry = Entry(name: string, isDir: bool)

  /** The two resume sections the pipeline rewrites. */
  datatype Section = Experience | Skills

  /** The dictionary `locate_template_assets` returns. */
  datatype AssetMap = AssetMap(folderRoot: Path, experience: Option<Path>, skills: Option<Path>)
  {
    function PathOf(s: Section): Option<Path> {
      match s
      case Experience => experience
      case Skills => skills
    }
  }

  /** One entry of the dictionary `extract_tex_contents` returns. */
  datatype Extracted = Extracted(raw: Option<string>, path: Option<Path>)

  const ExperienceFile: string := "experience.tex"

  /** The skills file names, highest priority first. */
  const SkillsPriority: seq<string> := ["additional_skills.tex", "technologies.tex", "skills.tex"]

  /** `os.listdir` never reports an empty name. */
  predicate ListingNamesNonEmpty(listing: seq<Entry>) {
    forall i :: 0 <= i < |listing| ==> listing[i].name != ""
  }

  /** A candidate folder: a directory whose lower-cased name contains the lower-cased position. */
  predicate Matches(e: Entry, jpLower: string) {
    e.isDir && Contains(Lower(e.name), jpLower)
  }

  /**
   * The list comprehension over directories followed by `next(...)`: the index of
   * the first matching directory in listing order.
   */
  function FirstMatch(listing: seq<Entry>, jpLower: string): (r: Option<nat>)
    ensures r.Some? ==> r.value < |listing| && Matches(listing[r.value], jpLower)
    ensures r.Some? ==> forall j :: 0 <= j < r.value ==> !Matches(listing[j], jpLower)
    ensures r.None? <==> forall j :: 0 <= j < |listing| ==> !Matches(listing[j], jpLower)
  {
    if listing == [] then None
    else if Matches(listing[0], jpLower) then Some(0)
    else
      match FirstMatch(listing[1..], jpLower)
      case None => None
      case Some(k) => Some(k + 1)
  }

  /** The index of the first name in `names` that exists inside `folder`. */
  function FirstExisting(fs: FileMap, folder: Path, names: seq<string>): (r: Option<nat>)
    ensures r.Some? ==> r.value < |names| && Join(folder, names[r.value]) in fs
    ensures r.Some? ==> forall j :: 0 <= j < r.value ==> Join(folder, names[j]) !in fs
    ensures r.None? <==> forall j :: 0 <= j < |names| ==> Join(folder, names[j]) !in fs
  {
    if names == [] then None
    else if Join(folder, names[0]) in fs then Some(0)
    else
      match FirstExisting(fs, folder, names[1..])
      case None => None
      case Some(k) => Some(k + 1)
  }

  /**
   * The skills file the priority rule selects in `folder`: an existing file of the
   * folder with one of the three names, none exactly when none of them exists, and
   * `additional_skills.tex` whenever it exists.
   */
  function SkillsChoice(fs: FileMap, folder: Path): (r: Option<Path>)
    ensures r.Some? ==> r.value in fs && Dirname(r.value) == folder && Basename(r.value) in SkillsPriority
    ensures r.None? <==> forall i :: 0 <= i < |SkillsPriority| ==> Join(folder, SkillsPriority[i]) !in fs
    ensures Join(folder, "additional_skills.tex") in fs ==> r == Some(Join(folder, "additional_skills.tex"))
  {
    match FirstExisting(fs, folder, SkillsPriority)
    case None => None
    case Some(i) => Some(Join(folder, SkillsPriority[i]))
  }

  /** The `for ... break` loop over the priority list. */
  method FindSkillsFile(fs: FileMap, folder: Path) returns (skills: Option<Path>)
    ensures skills == SkillsChoice(fs, folder)
  {
    skills := None;
    var i := 0;
    while i < |SkillsPriority|
      invariant 0 <= i <= |SkillsPriority|
      invariant forall j :: 0 <= j < i ==> Join(folder, SkillsPriority[j]) !in fs
    {
      var potential := Join(folder, SkillsPriority[i]);
      if potential in fs {
        skills := Some(potential);
        break;
      }
      i := i + 1;
    }
  }

  /** `locate_template_assets(job_position, base)`, with the directory listing of `base` given. */
  method LocateTemplateAssets(jobPosition: string, base: Path, listing: seq<Entry>, fs: FileMap)
    returns (r: Result<AssetMap>)
    ensures var k := FirstMatch(listing, Lower(jobPosition));
      r.Err? <==> k.None? || listing[k.value].name == ""
    ensures r.Err? ==> r.error == TemplateNotFound
    ensures r.Ok? ==> FirstMatch(listing, Lower(jobPosition)).Some?
    ensures r.Ok? ==> r.value.folderRoot == Join(base, listing[FirstMatch(listing, Lower(jobPosition)).value].name)
    ensures r.Ok? ==> (r.value.experience.Some? <==> Join(r.value.folderRoot, ExperienceFile) in fs)
    ensures r.Ok? && r.value.experience.Some? ==> r.value.experience.value == Join(r.value.folderRoot, ExperienceFile)
    ensures r.Ok? ==> r.value.skills == SkillsChoice(fs, r.value.folderRoot)
  {
    var jpLower := Lower(jobPosition);
    var target := FirstMatch(listing, jpLower);
    if target.None? || listing[target.value].name == "" {
      return Err(TemplateNotFound);
    }
    var folderPath := Join(base, listing[target.value].name);
    var expPath := Join(folderPath, ExperienceFile);
    var experienceFile := if expPath in fs then Some(expPath) else None;
    var skillsFile := FindSkillsFile(fs, folderPath);
    return Ok(AssetMap(folderPath, experienceFile, skillsFile));
  }

  /** The text `extract_tex_contents` stores for a path: `None` unless the path is set, exists and reads. */
  function ReadBestEffort(fs: FileMap, p: Option<Path>): (raw: Option<string>)
    ensures raw.Some? <==> p.Some? && p.value in fs && fs[p.value].File? && fs[p.value].readable
    ensures raw.Some? ==> raw.value == fs[p.value].text
  {
    if p.Some? && p.value in fs then ReadText(fs, p.value) else None
  }

  /** `extract_tex_contents(asset_map)`: one best-effort read per section, never raising. */
  method ExtractTexContents(fs: FileMap, assets: AssetMap) returns (content: map<Section, Extracted>)
    ensures content.Keys == {Experience, Skills}
    ensures forall s :: s in content ==> content[s].path == assets.PathOf(s)
    ensures forall s :: s in content ==> content[s].raw == ReadBestEffort(fs, assets.PathOf(s))
  {
    content := map[Experience := Extracted(Some(""), assets.experience),
                   Skills := Extracted(Some(""), assets.skills)];
    var keys := [Experience, Skills];
    for i := 0 to |keys|
      invariant content.Keys == {Experience, Skills}
      invariant forall s :: s in content ==> content[s].path == assets.PathOf(s)
      invariant forall j :: 0 <= j < i ==> content[keys[j]].raw == ReadBestEffort(fs, assets.PathOf(keys[j]))
    {
      var key := keys[i];
      var filePath := content[key].path;
      if filePath.Some? && filePath.value in fs {
        // the `try` around `open(...).read()`: a failing read stores None
        var raw := ReadText(fs, filePath.value);
        content := content[key := content[key].(raw := raw)];
      } else {
        content := content[key := content[key].(raw := None)];
      }
    }
    assert keys[0] == Experience && keys[1] == Skills;
  }

  // ---------------------------------------------------------------------------
  // Properties of the selection rules

  /** An empty position is contained in every name, so the first directory of the listing wins. */
  lemma EmptyPositionPicksFirstDirectory(listing: seq<Entry>, k: nat)
    ensures FirstMatch(listing, Lower("")) == Some(k) <==>
      k < |listing| && listing[k].isDir && forall j :: 0 <= j < k ==> !listing[j].isDir
  {
    assert Lower("") == "";
    forall j | 0 <= j < |listing| ensures Matches(listing[j], "") == listing[j].isDir {
      EmptyIsEverywhere(Lower(listing[j].name));
    }
  }

  /** With names as `os.listdir` gives them, a folder is found exactly when some directory matches. */
  lemma FoundIffSomeDirectoryMatches(listing: seq<Entry>, jobPosition: string)
    requires ListingNamesNonEmpty(listing)
    ensures var k := FirstMatch(listing, Lower(jobPosition));
      (k.Some? && listing[k.value].name != "") <==>
      exists j :: 0 <= j < |listing| && Matches(listing[j], Lower(jobPosition))
  {
  }

  /** A higher-priority skills file that exists always beats a lower-priority one. */
  lemma HigherPriorityWins(fs: FileMap, folder: Path, i: nat, j: nat)
    requires i < j < |SkillsPriority|
    requires Join(folder, SkillsPriority[i]) in fs
    ensures SkillsChoice(fs, folder) != Some(Join(folder, SkillsPriority[j]))
  {
    var r := FirstExisting(fs, folder, SkillsPriority);
    if r.Some? && r.value != j {
      assert SkillsPriority[r.value] != SkillsPriority[j];
      assert Join(folder, SkillsPriority[r.value])[|folder|] != Join(folder, SkillsPriority[j])[|folder|];
    }
  }

  /** `technologies.tex` is chosen over `skills.tex` when `additional_skills.tex` is absent. */
  lemma TechnologiesBeforeSkills(fs: FileMap, folder: Path)
    requires Join(folder, "additional_skills.tex") !in fs
    requires Join(folder, "technologies.tex") in fs
    ensures SkillsChoice(fs, folder) == Some(Join(folder, "technologies.tex"))
  {
    assert SkillsPriority[0] == "additional_skills.tex" && SkillsPriority[1] == "technologies.tex";
  }

  /** Folders `A_ML` and `B_Backend` with the position `ml`: `A_ML` is chosen. */
  lemma MlPicksAml()
    ensures FirstMatch([Entry("A_ML", true), Entry("B_Backend", true)], Lower("ml")) == Some(0)
  {
    assert Lower("ml") == "ml";
    assert Lower("A_ML") == "a_ml";
    assert "ml" <= Lower("A_ML")[2..];
  }
}
