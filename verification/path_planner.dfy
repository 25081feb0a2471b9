/**
 * generateNewPath: where the watermarked copy of a source file goes, and the
 * directory make-dir ensures for it.
 */
module PathPlanner {
  import opened Wrappers
  import opened NodePath
  import opened FileSystem

  /**
   * The settings the planner and the dispatcher read. After the default merge
   * the switches are booleans; `savepath` is absent until the user picks a
   * folder, and is then an array whose first entry is used.
   */
  datatype Settings = Settings(folderswitch: bool, savepath: Option<seq<string>>, subfolder: bool, suffix: bool)

  const SubfolderSegment := "/with-watermark"
  const WatermarkSuffix := ".watermark"

  /** A directory value as JavaScript holds it: `savepath[0]` of an empty array is undefined. */
  datatype JsDir = Dir(path: string) | Undefined

  /** Why generateNewPath throws: the directory is undefined, or a file stands in make-dir's way. */
  datatype PlanError = DirectoryUndefined | FileInTheWay

  datatype OutputPlan = OutputPlan(dir: string, fullPath: string)

  /** The override directory is honoured only when folderswitch is false and savepath is set. */
  predicate OverrideActive(s: Settings) {
    !s.folderswitch && s.savepath.Some?
  }

  /** String concatenation turns undefined into "undefined". */
  function JsText(d: JsDir): string {
    match d
    case Dir(p) => p
    case Undefined => "undefined"
  }

  function ChosenDir(s: Settings, source: ParsedPath): JsDir {
    if OverrideActive(s) then
      (if |s.savepath.value| > 0 then Dir(s.savepath.value[0]) else Undefined)
    else Dir(source.dir)
  }

  function TargetDir(s: Settings, source: ParsedPath): (r: JsDir)
    ensures r.Undefined? <==> OverrideActive(s) && s.savepath.value == [] && !s.subfolder
    ensures var dir := JsText(r);
      (OverrideActive(s) && s.savepath.value != [] ==>
         dir == s.savepath.value[0] + (if s.subfolder then SubfolderSegment else "")) &&
      (OverrideActive(s) && s.savepath.value == [] && s.subfolder ==> dir == "undefined" + SubfolderSegment) &&
      (!OverrideActive(s) ==> dir == source.dir + (if s.subfolder then SubfolderSegment else ""))
  {
    var d := ChosenDir(s, source);
    if s.subfolder then Dir(JsText(d) + SubfolderSegment) else d
  }

  function SuffixText(s: Settings): string {
    if s.suffix then WatermarkSuffix else ""
  }

  /**
   * The output plan for one source path, or the error make-dir's sync call
   * throws when the directory is undefined.
   */
  function PlanOutput(s: Settings, pathName: string): (r: Result<OutputPlan, PlanError>)
    ensures r.Err? <==> OverrideActive(s) && s.savepath.value == [] && !s.subfolder
    ensures r.Err? ==> r.error == DirectoryUndefined
  {
    var source := Parse(pathName);
    match TargetDir(s, source)
    case Undefined => Err(DirectoryUndefined)
    case Dir(dir) =>
      Ok(OutputPlan(dir, Format(source.(dir := dir, base := source.name + SuffixText(s) + source.ext))))
  }

  /** generateNewPath: plans the output path and ensures its directory exists. */
  method GenerateNewPath(host: Host, s: Settings, pathName: string) returns (r: Result<string, PlanError>)
    modifies host
    ensures PlanOutput(s, pathName).Err? ==> r == Err(PlanOutput(s, pathName).error) && unchanged(host)
    ensures PlanOutput(s, pathName).Ok? ==>
      var plan := PlanOutput(s, pathName).value;
      if MakeDirSucceeds(old(host.State()), plan.dir) then
        r == Ok(plan.fullPath) &&
        host.events == old(host.events) + [MadeDir(plan.dir)] &&
        host.State() == Apply(old(host.State()), MadeDir(plan.dir))
      else
        r == Err(FileInTheWay) && unchanged(host)
  {
    var planned := PlanOutput(s, pathName);
    match planned
    case Err(e) =>
      r := Err(e);
    case Ok(plan) =>
      var made := host.MakeDirSync(plan.dir);
      r := if made then Ok(plan.fullPath) else Err(FileInTheWay);
  }

  /**
   * Where the output lands. Its directory is the override (when honoured) or
   * the source's own directory, followed by "/with-watermark" when the
   * subfolder switch is on; its base name is the source's name, then
   * ".watermark" when the suffix switch is on, then the source's extension,
   * case kept. When the source has an extension, the output parses back to
   * the same extension.
   */
  lemma OutputLocation(s: Settings, pathName: string)
    requires Parse(pathName).base != ""
    requires PlanOutput(s, pathName).Ok?
    ensures var source := Parse(pathName);
      var plan := PlanOutput(s, pathName).value;
      var out := Parse(plan.fullPath);
      (OverrideActive(s) && s.savepath.value != [] ==>
         plan.dir == s.savepath.value[0] + (if s.subfolder then SubfolderSegment else "")) &&
      (OverrideActive(s) && s.savepath.value == [] ==> plan.dir == "undefined" + SubfolderSegment) &&
      (!OverrideActive(s) ==> plan.dir == source.dir + (if s.subfolder then SubfolderSegment else "")) &&
      out.dir == (if plan.dir == "" then source.root else plan.dir) &&
      out.base == source.name + (if s.suffix then WatermarkSuffix else "") + source.ext &&
      (source.ext != "" ==> out.ext == source.ext &&
                            out.name == source.name + (if s.suffix then WatermarkSuffix else ""))
  {
    OutputDirChoice(s, pathName);
    OutputParsesBack(s, pathName);
  }

  lemma OutputDirChoice(s: Settings, pathName: string)
    requires PlanOutput(s, pathName).Ok?
    ensures var plan := PlanOutput(s, pathName).value;
      (OverrideActive(s) && s.savepath.value != [] ==>
         plan.dir == s.savepath.value[0] + (if s.subfolder then SubfolderSegment else "")) &&
      (OverrideActive(s) && s.savepath.value == [] ==> plan.dir == "undefined" + SubfolderSegment) &&
      (!OverrideActive(s) ==> plan.dir == Parse(pathName).dir + (if s.subfolder then SubfolderSegment else ""))
  {
    PlannedDir(s, pathName);
  }

  lemma PlannedPath(s: Settings, pathName: string)
    requires PlanOutput(s, pathName).Ok?
    ensures var source := Parse(pathName);
      var plan := PlanOutput(s, pathName).value;
      plan.fullPath == Format(source.(dir := plan.dir, base := source.name + SuffixText(s) + source.ext))
  {
  }

  lemma PlannedDir(s: Settings, pathName: string)
    requires PlanOutput(s, pathName).Ok?
    ensures PlanOutput(s, pathName).value.dir == JsText(TargetDir(s, Parse(pathName)))
  {
  }

  lemma OutputParsesBack(s: Settings, pathName: string)
    requires Parse(pathName).base != ""
    requires PlanOutput(s, pathName).Ok?
    ensures var source := Parse(pathName);
      var plan := PlanOutput(s, pathName).value;
      var out := Parse(plan.fullPath);
      out.dir == (if plan.dir == "" then source.root else plan.dir) &&
      out.base == source.name + SuffixText(s) + source.ext &&
      (source.ext != "" ==> out.ext == source.ext && out.name == source.name + SuffixText(s))
  {
    var source := Parse(pathName);
    PlannedPath(s, pathName);
    RenamedParsesBack(source, PlanOutput(s, pathName).value.dir, SuffixText(s));
  }

  /** A parsed file path moved to `dir`, with `mark` put between its name and extension, parses back to those parts. */
  lemma RenamedParsesBack(source: ParsedPath, dir: string, mark: string)
    requires source.root == "" || source.root == "/"
    requires source.base != "" && '/' !in source.base
    requires source.name == NameOf(source.base) && source.ext == ExtOf(source.base)
    requires mark == "" || mark == WatermarkSuffix
    ensures var out := Parse(Format(source.(dir := dir, base := source.name + mark + source.ext)));
      out.dir == (if dir == "" then source.root else dir) &&
      out.base == source.name + mark + source.ext &&
      (source.ext != "" ==> out.ext == source.ext && out.name == source.name + mark)
  {
    var base := source.name + mark + source.ext;
    NoSeparatorInParts(source);
    assert '/' !in mark;
    assert base != "";
    ParseFormat(source.(dir := dir, base := base));
    if source.ext != "" {
      KeepsExtension(source.base, source.name, mark, source.ext);
    }
  }

  lemma NoSeparatorInParts(source: ParsedPath)
    requires source.name + source.ext == source.base && '/' !in source.base
    ensures '/' !in source.name && '/' !in source.ext
  {
    assert forall c :: c in source.name ==> c in source.base;
    assert forall c :: c in source.ext ==> c in source.base;
  }

  /**
   * Inserting a dot-free-at-the-end marker between a name and its extension
   * keeps the extension.
   */
  lemma KeepsExtension(base: string, name: string, mark: string, ext: string)
    requires ext != "" && name == NameOf(base) && ext == ExtOf(base)
    requires mark == "" || mark == WatermarkSuffix
    ensures NameOf(name + mark + ext) == name + mark
    ensures ExtOf(name + mark + ext) == ext
  {
    var k := ExtStart(base);
    assert k > 0 && name == base[..k] && ext == base[k..];
    var b := name + mark + ext;
    var j := |name + mark|;
    assert b[j..] == ext && b[..j] == name + mark;
    forall i | j < i < |b|
      ensures b[i] != '.'
    {
      assert b[i] == ext[i - j] == base[i - j + k];
    }
    assert b != ".." by {
      if mark == "" {
        assert b == base;
      } else {
        assert |b| > 2;
      }
    }
    ExtensionAtLastDot(b, j);
  }

  /**
   * With no suffix, no subfolder and no honoured override the planned output
   * is the source path itself, so writing it would overwrite the source.
   */
  lemma InPlaceOutput(s: Settings, pathName: string)
    requires PlainFilePath(pathName)
    requires !s.suffix && !s.subfolder && !OverrideActive(s)
    ensures PlanOutput(s, pathName) == Ok(OutputPlan(Parse(pathName).dir, pathName))
  {
    SameFolderOutput(s, pathName);
  }

  /**
   * Whenever the target directory is the source's own and no suffix is
   * added, the planned output is the source path.
   */
  lemma SameFolderOutput(s: Settings, pathName: string)
    requires PlainFilePath(pathName)
    requires !s.suffix && TargetDir(s, Parse(pathName)) == Dir(Parse(pathName).dir)
    ensures PlanOutput(s, pathName) == Ok(OutputPlan(Parse(pathName).dir, pathName))
  {
    var source := Parse(pathName);
    KeptParts(source);
    FormatParse(pathName);
  }

  lemma KeptParts(source: ParsedPath)
    requires source.name + source.ext == source.base
    ensures source.(base := source.name + "" + source.ext) == source
  {
    assert source.name + "" + source.ext == source.base;
  }

  /**
   * The suffix always moves the output away from the source, and so does the
   * subfolder when no override is honoured.
   */
  lemma OutputDiffersFromSource(s: Settings, pathName: string)
    requires Parse(pathName).base != ""
    requires s.suffix || (s.subfolder && !OverrideActive(s))
    ensures PlanOutput(s, pathName).Ok? ==> PlanOutput(s, pathName).value.fullPath != pathName
  {
    if PlanOutput(s, pathName).Ok? {
      OutputLocation(s, pathName);
      var source := Parse(pathName);
      var out := Parse(PlanOutput(s, pathName).value.fullPath);
      if s.suffix {
        assert |out.base| == |source.base| + |WatermarkSuffix|;
      } else {
        assert |out.dir| == |source.dir| + |SubfolderSegment|;
      }
      assert out != source;
    }
  }
}
