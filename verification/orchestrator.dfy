/**
 * processFile: dispatch on the extension, optional staging of a temporary
 * copy, the watermark step, the report, and removal of the staged copy.
 */
module Orchestrator {
  import opened Wrappers
  import opened NodePath
  import opened FileSystem
  import opened PathPlanner
  import opened Compositor

  const TmpSuffix := ".tmp"

  /** String.prototype.toLowerCase on the ASCII letters. */
  function LowerChar(c: char): char {
    if 'A' <= c <= 'Z' then (c as int + 32) as char else c
  }

  function ToLower(s: string): string {
    seq(|s|, i requires 0 <= i < |s| => LowerChar(s[i]))
  }

  /**
   * The switch on `path.extname(fileName).toLowerCase()`: the JPEG branch is
   * taken exactly for base names ending in '.jpg' or '.jpeg', in any letter
   * case, after a non-empty name.
   */
  predicate Accepts(fileName: string)
    ensures var base := Parse(fileName).base;
      Accepts(fileName) <==> EndsWithIgnoringCase(base, ".jpg") || EndsWithIgnoringCase(base, ".jpeg")
  {
    var base := Parse(fileName).base;
    LowerExtensionIsSuffix(base, ".jpg");
    LowerExtensionIsSuffix(base, ".jpeg");
    var e := ToLower(Extname(fileName));
    e == ".jpg" || e == ".jpeg"
  }

  /** `name` ends with `ext`, compared in lower case, and has something before it. */
  predicate EndsWithIgnoringCase(name: string, ext: string) {
    |name| > |ext| && ToLower(name[|name| - |ext|..]) == ext
  }

  lemma LowerDot(c: char)
    ensures LowerChar(c) == '.' <==> c == '.'
  {
  }

  /** Lower-casing keeps the length, so it can be taken piece by piece. */
  lemma LowerCharAt(s: string, i: nat)
    requires i < |s|
    ensures |ToLower(s)| == |s| && ToLower(s)[i] == LowerChar(s[i])
  {
  }

  /**
   * For '.jpg' and '.jpeg', an extension lower-cases to `ext` exactly when the
   * base name ends with `ext` in any letter case and has a name before it.
   */
  lemma {:induction false} LowerExtensionIsSuffix(base: string, ext: string)
    requires ext == ".jpg" || ext == ".jpeg"
    ensures ToLower(ExtOf(base)) == ext <==> EndsWithIgnoringCase(base, ext)
  {
    var e := ExtOf(base);
    var k := |base| - |ext|;
    if ToLower(e) == ext {
      LowerCharAt(e, 0);
      var j := ExtStart(base);
      assert j >= 0;
      assert e == base[j..];
      assert k == j;
    }
    if EndsWithIgnoringCase(base, ext) {
      var tail := base[k..];
      LowerCharAt(tail, 0);
      LowerDot(base[k]);
      forall i | k < i < |base|
        ensures base[i] != '.'
      {
        LowerCharAt(tail, i - k);
        LowerDot(base[i]);
      }
      ExtensionAtLastDot(base, k);
    }
  }

  /** Where the compositor reads from, and the temporary copy staged for it, if any. */
  datatype Staging = Staging(readPath: string, tmpFile: Option<string>)

  /**
   * A copy `newFile + '.tmp'` is staged, and read from, exactly when neither
   * the suffix nor the subfolder switch is on; the copy is never the output
   * itself. Otherwise the source is read directly.
   */
  function Stage(s: Settings, filePath: string, newFile: string): (st: Staging)
    ensures st.tmpFile.Some? <==> !s.suffix && !s.subfolder
    ensures st.tmpFile.Some? ==>
      st.readPath == st.tmpFile.value && st.readPath != newFile &&
      |st.readPath| > |newFile| && st.readPath[..|newFile|] == newFile
    ensures st.tmpFile.None? ==> st.readPath == filePath
  {
    if !s.suffix && !s.subfolder then
      var tmp := newFile + TmpSuffix;
      assert |tmp| == |newFile| + |TmpSuffix| && tmp[..|newFile|] == newFile;
      Staging(tmp, Some(tmp))
    else Staging(filePath, None)
  }

  function StageEvents(filePath: string, st: Staging): seq<Event> {
    if st.tmpFile.Some? then [Copied(filePath, st.tmpFile.value)] else []
  }

  function CleanupEvents(st: Staging): seq<Event> {
    if st.tmpFile.Some? then [Unlinked(st.tmpFile.value)] else []
  }

  /** Why no watermarked file could be reported. */
  datatype Cause = DecodeFailed | OutputMissing

  /** What the renderer is told: 'isShrinked', 'error' after a failed job, or 'error' with "Only JPG allowed". */
  datatype Report = Shrunk(newFile: string) | NotWritten(newFile: string, cause: Cause) | OnlyJpgAllowed

  /**
   * An exception nothing catches: statSync on a missing source, the
   * readFile callback rethrowing its error (the source is a directory),
   * make-dir on an undefined directory or with a file in its way, or
   * copyFileSync staging onto a directory.
   */
  datatype Fault = SourceMissing | SourceUnreadable | NoTargetDirectory | TargetDirBlocked | StagingBlocked

  datatype Outcome = Reported(report: Report) | Uncaught(fault: Fault)

  datatype JobRun = JobRun(events: seq<Event>, outcome: Outcome)

  /** getFileSize's statSync succeeds: the path is a file or a directory. */
  predicate Stats(disk: Disk, path: string) {
    path in disk.files || path in disk.dirs
  }

  /** The job gets past getFileSize, readFile and generateNewPath's make-dir. */
  predicate Reaches(s: Settings, filePath: string, disk: Disk) {
    filePath in disk.files && PlanOutput(s, filePath).Ok? &&
    MakeDirSucceeds(disk, PlanOutput(s, filePath).value.dir)
  }

  /** The staged copy cannot be made: a directory stands at its path. */
  predicate StagingFails(st: Staging, disk: Disk) {
    st.tmpFile.Some? && !CopySucceeds(disk, st.tmpFile.value)
  }

  /**
   * The file-system events and the outcome of one processFile call, given the
   * settings, the disk before it, and what jimp makes of the two images
   * (None when it fails to read them).
   */
  function Job(s: Settings, filePath: string, fileName: string, image: Option<Decoded>, disk: Disk): (r: JobRun)
    requires image.Some? ==> image.value.Valid()
    ensures r.outcome == Uncaught(SourceMissing) <==> !Stats(disk, filePath)
    ensures r.events == [] <==> !Reaches(s, filePath, disk)
    ensures !Reaches(s, filePath, disk) ==> r.outcome.Uncaught?
    ensures Reaches(s, filePath, disk) ==>
      var dir := PlanOutput(s, filePath).value.dir;
      r.events[0] == MadeDir(dir) &&
      (r.outcome.Uncaught? ==> r == JobRun([MadeDir(dir)], Uncaught(StagingBlocked)))
  {
    if !Stats(disk, filePath) then JobRun([], Uncaught(SourceMissing))
    else if filePath !in disk.files then JobRun([], Uncaught(SourceUnreadable))
    else
      match PlanOutput(s, filePath)
      case Err(_) => JobRun([], Uncaught(NoTargetDirectory))
      case Ok(plan) =>
        if !MakeDirSucceeds(disk, plan.dir) then JobRun([], Uncaught(TargetDirBlocked))
        else
          var run := Dispatch(s, filePath, fileName, plan.fullPath, image, Apply(disk, MadeDir(plan.dir)));
          JobRun([MadeDir(plan.dir)] + run.events, run.outcome)
  }

  /**
   * The extension switch, once the output path is planned and its directory
   * exists: "Only JPG allowed" is reported exactly for a name that is not a
   * JPEG, and then nothing else happens; the only exception left is the
   * staging copy's.
   */
  function Dispatch(s: Settings, filePath: string, fileName: string, newFile: string, image: Option<Decoded>, disk: Disk): (r: JobRun)
    requires image.Some? ==> image.value.Valid()
    ensures r.outcome == Reported(OnlyJpgAllowed) <==> !Accepts(fileName)
    ensures !Accepts(fileName) ==> r.events == []
    ensures r.outcome.Uncaught? ==> r == JobRun([], Uncaught(StagingBlocked))
  {
    if Accepts(fileName) then Watermark(s, filePath, newFile, image, disk)
    else JobRun([], Reported(OnlyJpgAllowed))
  }

  /**
   * The JPEG branch, from a disk on which the output directory exists:
   * staging, the tiling writes, the report (which needs getFileSize on the
   * output to succeed), and the cleanup of the staged copy. A staging copy
   * onto a directory throws before the promise chain, so nothing is reported
   * and nothing cleaned up. Otherwise the report names the output and says
   * the images could not be read exactly when jimp failed, and a staged
   * copy is made first and removed last.
   */
  function Watermark(s: Settings, filePath: string, newFile: string, image: Option<Decoded>, disk: Disk): (r: JobRun)
    requires image.Some? ==> image.value.Valid()
    ensures var st := Stage(s, filePath, newFile);
      r.outcome.Uncaught? <==> StagingFails(st, disk)
    ensures r.outcome.Uncaught? ==> r == JobRun([], Uncaught(StagingBlocked))
    ensures r.outcome.Reported? ==> !r.outcome.report.OnlyJpgAllowed? && r.outcome.report.newFile == newFile
    ensures r.outcome == Reported(NotWritten(newFile, DecodeFailed)) <==>
      image.None? && !StagingFails(Stage(s, filePath, newFile), disk)
    ensures var st := Stage(s, filePath, newFile);
      st.tmpFile.Some? && !StagingFails(st, disk) ==>
        |r.events| >= 2 && r.events[0] == Copied(filePath, st.tmpFile.value) &&
        r.events[|r.events| - 1] == Unlinked(st.tmpFile.value)
  {
    var st := Stage(s, filePath, newFile);
    if StagingFails(st, disk) then JobRun([], Uncaught(StagingBlocked))
    else
      var tiles := if image.Some? then TileWrites(newFile, Tiles(image.value)) else [];
      var report :=
        if image.None? then NotWritten(newFile, DecodeFailed)
        else if Stats(ApplyAll(disk, StageEvents(filePath, st) + tiles), newFile) then Shrunk(newFile)
        else NotWritten(newFile, OutputMissing);
      JobRun(StageEvents(filePath, st) + tiles + CleanupEvents(st), Reported(report))
  }

  /**
   * processFile, with the jimp chain run to completion before the report and
   * the `finally` cleanup.
   */
  method ProcessFile(host: Host, s: Settings, filePath: string, fileName: string, image: Option<Decoded>)
    returns (outcome: Outcome)
    requires image.Some? ==> image.value.Valid()
    modifies host
    ensures var run := Job(s, filePath, fileName, image, old(host.State()));
      outcome == run.outcome &&
      host.events == old(host.events) + run.events &&
      host.State() == ApplyAll(old(host.State()), run.events)
  {
    ghost var disk := host.State();
    var present := host.StatSync(filePath);
    if !present {
      assert Job(s, filePath, fileName, image, disk) == JobRun([], Uncaught(SourceMissing));
      return Uncaught(SourceMissing);
    }
    var readable := host.ReadFile(filePath);
    if !readable {
      assert Job(s, filePath, fileName, image, disk) == JobRun([], Uncaught(SourceUnreadable));
      return Uncaught(SourceUnreadable);
    }
    var planned := GenerateNewPath(host, s, filePath);
    if planned == Err(DirectoryUndefined) {
      assert Job(s, filePath, fileName, image, disk) == JobRun([], Uncaught(NoTargetDirectory));
      assert host.State() == disk;
      return Uncaught(NoTargetDirectory);
    } else if planned.Err? {
      assert Job(s, filePath, fileName, image, disk) == JobRun([], Uncaught(TargetDirBlocked));
      assert host.State() == disk;
      return Uncaught(TargetDirBlocked);
    }
    ghost var plan := PlanOutput(s, filePath).value;
    JobWhenPlanned(s, filePath, fileName, image, disk);
    EventsAssociate(old(host.events), [MadeDir(plan.dir)],
      Dispatch(s, filePath, fileName, plan.fullPath, image, host.State()).events);
    outcome := DispatchByExtension(host, s, filePath, fileName, planned.value, image);
  }

  /** Regrouping an event log; spelled out for the solver. */
  lemma EventsAssociate(a: seq<Event>, b: seq<Event>, c: seq<Event>)
    ensures (a + b) + c == a + (b + c)
  {
  }

  /**
   * Once the source is read and make-dir has created the planned directory,
   * the job is that creation followed by the dispatch.
   */
  lemma JobWhenPlanned(s: Settings, filePath: string, fileName: string, image: Option<Decoded>, disk: Disk)
    requires image.Some? ==> image.value.Valid()
    requires Reaches(s, filePath, disk)
    ensures var plan := PlanOutput(s, filePath).value;
      var run := Dispatch(s, filePath, fileName, plan.fullPath, image, Apply(disk, MadeDir(plan.dir)));
      Job(s, filePath, fileName, image, disk) == JobRun([MadeDir(plan.dir)] + run.events, run.outcome) &&
      ApplyAll(disk, [MadeDir(plan.dir)] + run.events) == ApplyAll(Apply(disk, MadeDir(plan.dir)), run.events)
  {
    var plan := PlanOutput(s, filePath).value;
    var run := Dispatch(s, filePath, fileName, plan.fullPath, image, Apply(disk, MadeDir(plan.dir)));
    ApplyAllAppend(disk, [MadeDir(plan.dir)], run.events);
    assert ApplyAll(disk, [MadeDir(plan.dir)]) == Apply(disk, MadeDir(plan.dir));
  }

  /** The switch on the lower-cased extension of the file name. */
  method DispatchByExtension(host: Host, s: Settings, filePath: string, fileName: string, newFile: string, image: Option<Decoded>)
    returns (outcome: Outcome)
    requires image.Some? ==> image.value.Valid()
    requires filePath in host.files
    modifies host
    ensures var run := Dispatch(s, filePath, fileName, newFile, image, old(host.State()));
      outcome == run.outcome &&
      host.events == old(host.events) + run.events &&
      host.State() == ApplyAll(old(host.State()), run.events)
  {
    if Accepts(fileName) {
      outcome := WatermarkJpeg(host, s, filePath, newFile, image);
    } else {
      outcome := Reported(OnlyJpgAllowed);
    }
  }

  /** The body of the JPEG case and its `finally`. */
  method WatermarkJpeg(host: Host, s: Settings, filePath: string, newFile: string, image: Option<Decoded>)
    returns (outcome: Outcome)
    requires image.Some? ==> image.value.Valid()
    requires filePath in host.files
    modifies host
    ensures var run := Watermark(s, filePath, newFile, image, old(host.State()));
      outcome == run.outcome &&
      host.events == old(host.events) + run.events &&
      host.State() == ApplyAll(old(host.State()), run.events)
  {
    ghost var disk, log := host.State(), host.events;
    var st := Stage(s, filePath, newFile);
    if st.tmpFile.Some? {
      var copied := host.CopyFileSync(filePath, st.tmpFile.value);
      if !copied {
        assert Watermark(s, filePath, newFile, image, disk) == JobRun([], Uncaught(StagingBlocked));
        return Uncaught(StagingBlocked);
      }
    }
    ghost var done := StageEvents(filePath, st);
    assert host.State() == ApplyAll(disk, done) && host.events == log + done;
    var report: Report;
    if image.None? {
      report := NotWritten(newFile, DecodeFailed);
    } else {
      var d := image.value;
      var resized := ResizeSource(d);
      var mark := ResizeWatermark(d, resized);
      var placements := TileWatermark(host, resized, mark, newFile);
      ApplyTileWrites(ApplyAll(disk, done), newFile, Tiles(d));
      ApplyAllAppend(disk, done, TileWrites(newFile, Tiles(d)));
      EventsAssociate(log, done, TileWrites(newFile, Tiles(d)));
      done := done + TileWrites(newFile, Tiles(d));
      var written := host.StatSync(newFile);
      report := if written then Shrunk(newFile) else NotWritten(newFile, OutputMissing);
    }
    assert done == StageEvents(filePath, st) + (if image.Some? then TileWrites(newFile, Tiles(image.value)) else []);
    if st.tmpFile.Some? {
      host.UnlinkSync(st.tmpFile.value);
    }
    ApplyAllAppend(disk, done, CleanupEvents(st));
    EventsAssociate(log, done, CleanupEvents(st));
    WatermarkSteps(s, filePath, newFile, image, disk);
    outcome := Reported(report);
  }

  /** The JPEG branch taken apart into its three phases and its report. */
  lemma WatermarkSteps(s: Settings, filePath: string, newFile: string, image: Option<Decoded>, disk: Disk)
    requires image.Some? ==> image.value.Valid()
    ensures var st := Stage(s, filePath, newFile);
      var tiles := if image.Some? then TileWrites(newFile, Tiles(image.value)) else [];
      var run := Watermark(s, filePath, newFile, image, disk);
      !StagingFails(st, disk) ==>
      run.events == StageEvents(filePath, st) + tiles + CleanupEvents(st) &&
      run.outcome == Reported(
        if image.None? then NotWritten(newFile, DecodeFailed)
        else if Stats(ApplyAll(disk, StageEvents(filePath, st) + tiles), newFile) then Shrunk(newFile)
        else NotWritten(newFile, OutputMissing))
  {
  }
}
