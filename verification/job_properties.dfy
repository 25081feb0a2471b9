/**
 * What one processFile job does, stated over the Job function: which files
 * pass the extension switch, when a temporary copy is staged and that it is
 * always removed, how many writes reach the output, and when success is
 * reported.
 */
module JobProperties {
  import opened Wrappers
  import opened NodePath
  import opened FileSystem
  import opened PathPlanner
  import opened Compositor
  import opened Orchestrator

  /** The staged copy as a set of paths: empty when nothing is staged. */
  function StagedSet(st: Staging): set<string> {
    if st.tmpFile.Some? then {st.tmpFile.value} else {}
  }

  /** Tile count of the JPEG branch: none when jimp fails to read the images. */
  function TileTotal(image: Option<Decoded>): nat
    requires image.Some? ==> image.value.Valid()
  {
    if image.Some? then Tiles(image.value) else 0
  }

  lemma ApplyOne(d: Disk, e: Event)
    ensures ApplyAll(d, [e]) == Apply(d, e)
  {
    assert [e][..0] == [];
  }

  /**
   * The JPEG branch on a disk where the output directory exists: a staging
   * copy onto a directory throws and does nothing else; otherwise the staged
   * copy, one write per tile, the removal of the staged copy, and afterwards
   * the output exists when a tile was written and the staged copy is gone.
   */
  lemma {:induction false} WatermarkEffect(s: Settings, filePath: string, newFile: string, image: Option<Decoded>, d: Disk)
    requires image.Some? ==> image.value.Valid()
    ensures var st := Stage(s, filePath, newFile);
      StagingFails(st, d) ==> Watermark(s, filePath, newFile, image, d) == JobRun([], Uncaught(StagingBlocked))
    ensures var st := Stage(s, filePath, newFile);
      var n := TileTotal(image);
      var run := Watermark(s, filePath, newFile, image, d);
      !StagingFails(st, d) ==>
      run.events == StageEvents(filePath, st) + TileWrites(newFile, n) + CleanupEvents(st) &&
      ApplyAll(d, run.events) ==
        d.(files := (d.files + StagedSet(st) + (if n > 0 then {newFile} else {})) - StagedSet(st)) &&
      run.outcome == Reported(
        if image.None? then NotWritten(newFile, DecodeFailed)
        else if n > 0 || newFile in d.files || newFile in d.dirs then Shrunk(newFile)
        else NotWritten(newFile, OutputMissing))
  {
    var st := Stage(s, filePath, newFile);
    var n := TileTotal(image);
    var tiles := TileWrites(newFile, n);
    var written := if n > 0 then {newFile} else {};
    if StagingFails(st, d) {
    } else if st.tmpFile.Some? {
      StagedRun(d, filePath, st.tmpFile.value, newFile, n);
    } else {
      assert [] + tiles + [] == tiles;
      ApplyTileWrites(d, newFile, n);
    }
  }

  /** Copy, n writes of the output, unlink: the disk after the tiles and after the whole run. */
  lemma {:induction false} StagedRun(d: Disk, filePath: string, tmp: string, newFile: string, n: nat)
    requires |tmp| > |newFile|
    ensures var copy, tiles := [Copied(filePath, tmp)], TileWrites(newFile, n);
      var written := if n > 0 then {newFile} else {};
      ApplyAll(d, copy + tiles) == d.(files := d.files + {tmp} + written) &&
      ApplyAll(d, copy + tiles + [Unlinked(tmp)]) == d.(files := (d.files + {tmp} + written) - {tmp})
  {
    var copy, tiles := [Copied(filePath, tmp)], TileWrites(newFile, n);
    var d2 := d.(files := d.files + {tmp});
    ApplyOne(d, Copied(filePath, tmp));
    ApplyAllAppend(d, copy, tiles);
    ApplyTileWrites(d2, newFile, n);
    var d3 := ApplyAll(d, copy + tiles);
    ApplyAllAppend(d, copy + tiles, [Unlinked(tmp)]);
    ApplyOne(d3, Unlinked(tmp));
  }

  /** The events of a job that reaches the JPEG branch. */
  function JpegEvents(dir: string, filePath: string, st: Staging, newFile: string, n: nat): seq<Event> {
    [MadeDir(dir)] + (StageEvents(filePath, st) + TileWrites(newFile, n) + CleanupEvents(st))
  }

  /**
   * A job that reaches the JPEG branch: make-dir, then the branch above.
   * Afterwards the output directory and its ancestors exist as well. A
   * directory at the staged path stops the job right after make-dir.
   */
  lemma JpegJobEffect(s: Settings, filePath: string, fileName: string, image: Option<Decoded>, disk: Disk)
    requires image.Some? ==> image.value.Valid()
    requires Reaches(s, filePath, disk) && Accepts(fileName)
    ensures var plan := PlanOutput(s, filePath).value;
      StagingFails(Stage(s, filePath, plan.fullPath), disk) ==>
        Job(s, filePath, fileName, image, disk) == JobRun([MadeDir(plan.dir)], Uncaught(StagingBlocked))
    ensures var plan := PlanOutput(s, filePath).value;
      var newFile := plan.fullPath;
      var st := Stage(s, filePath, newFile);
      var n := TileTotal(image);
      var job := Job(s, filePath, fileName, image, disk);
      !StagingFails(st, disk) ==>
      job.events == JpegEvents(plan.dir, filePath, st, newFile, n) &&
      ApplyAll(disk, job.events) ==
        Disk(disk.dirs + Ancestors(plan.dir),
             (disk.files + StagedSet(st) + (if n > 0 then {newFile} else {})) - StagedSet(st)) &&
      job.outcome == Reported(
        if image.None? then NotWritten(newFile, DecodeFailed)
        else if n > 0 || newFile in disk.files || newFile in disk.dirs + Ancestors(plan.dir) then Shrunk(newFile)
        else NotWritten(newFile, OutputMissing))
  {
    var plan := PlanOutput(s, filePath).value;
    var d1 := Apply(disk, MadeDir(plan.dir));
    JobWhenPlanned(s, filePath, fileName, image, disk);
    StagingAfterMakeDir(s, filePath, disk);
    WatermarkEffect(s, filePath, plan.fullPath, image, d1);
  }

  /** make-dir creates no directory at the staged path: that path is longer than the output directory. */
  lemma StagingAfterMakeDir(s: Settings, filePath: string, disk: Disk)
    requires PlanOutput(s, filePath).Ok?
    ensures var plan := PlanOutput(s, filePath).value;
      var st := Stage(s, filePath, plan.fullPath);
      StagingFails(st, disk) <==> StagingFails(st, Apply(disk, MadeDir(plan.dir)))
  {
    var plan := PlanOutput(s, filePath).value;
    PlannedPath(s, filePath);
    assert |plan.fullPath| >= |plan.dir|;
  }

  /**
   * The extension switch: "Only JPG allowed" is reported exactly for jobs
   * that get past getFileSize and generateNewPath with a file name that is
   * not a JPEG; such a job only ensures the output directory, and stages,
   * writes and removes nothing.
   */
  lemma RejectedExtension(s: Settings, filePath: string, fileName: string, image: Option<Decoded>, disk: Disk)
    requires image.Some? ==> image.value.Valid()
    ensures var job := Job(s, filePath, fileName, image, disk);
      job.outcome == Reported(OnlyJpgAllowed) <==> Reaches(s, filePath, disk) && !Accepts(fileName)
    ensures Reaches(s, filePath, disk) && !Accepts(fileName) ==>
      Job(s, filePath, fileName, image, disk).events == [MadeDir(PlanOutput(s, filePath).value.dir)]
  {
    if Reaches(s, filePath, disk) {
      var plan := PlanOutput(s, filePath).value;
      JobWhenPlanned(s, filePath, fileName, image, disk);
      if Accepts(fileName) {
        WatermarkReports(s, filePath, plan.fullPath, image, Apply(disk, MadeDir(plan.dir)));
      } else {
        assert [MadeDir(plan.dir)] + [] == [MadeDir(plan.dir)];
      }
    }
  }

  lemma WatermarkReports(s: Settings, filePath: string, newFile: string, image: Option<Decoded>, d: Disk)
    requires image.Some? ==> image.value.Valid()
    ensures Watermark(s, filePath, newFile, image, d).outcome != Reported(OnlyJpgAllowed)
  {
  }

  /**
   * Events `es` run on `d` copy the source to the staged file right after
   * make-dir and remove it with the last event, so that it is gone
   * afterwards; they copy and remove no other file, and none at all when
   * nothing is staged.
   */
  predicate CopyStagedAndRemoved(es: seq<Event>, filePath: string, st: Staging, d: Disk) {
    (st.tmpFile.Some? ==>
      |es| >= 3 &&
      es[1] == Copied(filePath, st.tmpFile.value) &&
      es[|es| - 1] == Unlinked(st.tmpFile.value) &&
      st.tmpFile.value !in ApplyAll(d, es).files) &&
    (forall i :: 0 <= i < |es| && es[i].Unlinked? ==> i == |es| - 1 && st.tmpFile == Some(es[i].path)) &&
    (forall i :: 0 <= i < |es| && es[i].Copied? ==> i == 1 && st.tmpFile == Some(es[i].to))
  }

  lemma {:induction false} StagedCopyShape(dir: string, filePath: string, st: Staging, newFile: string, n: nat, d: Disk)
    ensures CopyStagedAndRemoved(JpegEvents(dir, filePath, st, newFile, n), filePath, st, d)
  {
    var es := JpegEvents(dir, filePath, st, newFile, n);
    var tiles := TileWrites(newFile, n);
    if st.tmpFile.Some? {
      var tmp := st.tmpFile.value;
      assert es == [MadeDir(dir), Copied(filePath, tmp)] + tiles + [Unlinked(tmp)];
      assert es[..|es| - 1] == [MadeDir(dir), Copied(filePath, tmp)] + tiles;
    } else {
      assert es == [MadeDir(dir)] + tiles;
    }
  }

  lemma {:induction false} JpegWritesShape(dir: string, filePath: string, st: Staging, newFile: string, n: nat)
    ensures Writes(JpegEvents(dir, filePath, st, newFile, n)) == seq(n, _ => newFile)
  {
    var stage, tiles, cleanup := StageEvents(filePath, st), TileWrites(newFile, n), CleanupEvents(st);
    WritesAppend([MadeDir(dir)], stage + tiles + cleanup);
    WritesAppend(stage + tiles, cleanup);
    WritesAppend(stage, tiles);
    ApplyTileWrites(Disk({}, {}), newFile, n);
    assert Writes([MadeDir(dir)]) == [] by {
      assert [MadeDir(dir)][..0] == [];
    }
    assert Writes(stage) == [] && Writes(cleanup) == [] by {
      if st.tmpFile.Some? {
        assert stage[..0] == [] && cleanup[..0] == [];
      }
    }
  }

  /**
   * The temporary copy: staged right after make-dir exactly when it is
   * planned, removed by the last event of the job whether or not jimp
   * succeeded, and absent afterwards; the only file the job removes is that
   * copy, and a job that stages nothing copies and removes nothing. When the
   * copy itself fails on a directory, make-dir is the only event.
   */
  lemma TempFileLifecycle(s: Settings, filePath: string, fileName: string, image: Option<Decoded>, disk: Disk)
    requires image.Some? ==> image.value.Valid()
    requires Reaches(s, filePath, disk) && Accepts(fileName)
    ensures var plan := PlanOutput(s, filePath).value;
      var st := Stage(s, filePath, plan.fullPath);
      var events := Job(s, filePath, fileName, image, disk).events;
      if StagingFails(st, disk) then events == [MadeDir(plan.dir)]
      else CopyStagedAndRemoved(events, filePath, st, disk)
  {
    var plan := PlanOutput(s, filePath).value;
    var st := Stage(s, filePath, plan.fullPath);
    JpegJobEffect(s, filePath, fileName, image, disk);
    if !StagingFails(st, disk) {
      StagedCopyShape(plan.dir, filePath, st, plan.fullPath, TileTotal(image), disk);
    }
  }

  /**
   * The tiling loop is the only writer: the job writes the output path once
   * per tile and nothing else, and nothing at all when jimp cannot read the
   * images, the tile count rounds to zero, or the staging copy fails.
   */
  lemma WritesMatchTiles(s: Settings, filePath: string, fileName: string, image: Option<Decoded>, disk: Disk)
    requires image.Some? ==> image.value.Valid()
    requires Reaches(s, filePath, disk) && Accepts(fileName)
    ensures var newFile := PlanOutput(s, filePath).value.fullPath;
      Writes(Job(s, filePath, fileName, image, disk).events) ==
        if StagingFails(Stage(s, filePath, newFile), disk) then [] else seq(TileTotal(image), _ => newFile)
  {
    var plan := PlanOutput(s, filePath).value;
    var st := Stage(s, filePath, plan.fullPath);
    JpegJobEffect(s, filePath, fileName, image, disk);
    JobWritesShape(Job(s, filePath, fileName, image, disk).events, plan.dir, filePath, st, plan.fullPath,
      TileTotal(image), StagingFails(st, disk));
  }

  /** The writes of a JPEG job's events: none when only make-dir ran, else the tiles. */
  lemma JobWritesShape(es: seq<Event>, dir: string, filePath: string, st: Staging, newFile: string, n: nat, failed: bool)
    requires failed ==> es == [MadeDir(dir)]
    requires !failed ==> es == JpegEvents(dir, filePath, st, newFile, n)
    ensures Writes(es) == if failed then [] else seq(n, _ => newFile)
  {
    if failed {
      assert es[..0] == [];
    } else {
      JpegWritesShape(dir, filePath, st, newFile, n);
    }
  }

  /**
   * A job that reports success names its planned output, which exists
   * afterwards in the directory make-dir ensured: as the written file when a
   * tile was written, otherwise as whatever already stood at that path,
   * a file or a directory.
   */
  lemma SuccessLeavesOutput(s: Settings, filePath: string, fileName: string, image: Option<Decoded>, disk: Disk, f: string)
    requires image.Some? ==> image.value.Valid()
    requires Job(s, filePath, fileName, image, disk).outcome == Reported(Shrunk(f))
    ensures Reaches(s, filePath, disk) && Accepts(fileName) && image.Some?
    ensures var plan := PlanOutput(s, filePath).value;
      var after := ApplyAll(disk, Job(s, filePath, fileName, image, disk).events);
      f == plan.fullPath && plan.dir in after.dirs && (f in after.files || f in after.dirs) &&
      (TileTotal(image) > 0 ==> f in after.files)
  {
    UnreachedJobFails(s, filePath, fileName, image, disk);
    RejectedExtension(s, filePath, fileName, image, disk);
    JpegJobEffect(s, filePath, fileName, image, disk);
    var plan := PlanOutput(s, filePath).value;
    var st := Stage(s, filePath, plan.fullPath);
    OutputStands(disk, plan.dir, st, plan.fullPath, TileTotal(image));
  }

  /**
   * The disk after a JPEG job: the ensured directory exists, the output is
   * a file when a tile was written, and whatever stood at the output path
   * before still stands there.
   */
  lemma OutputStands(disk: Disk, dir: string, st: Staging, newFile: string, n: nat)
    requires st.tmpFile.Some? ==> |st.tmpFile.value| > |newFile|
    ensures var after := Disk(disk.dirs + Ancestors(dir),
        (disk.files + StagedSet(st) + (if n > 0 then {newFile} else {})) - StagedSet(st));
      dir in after.dirs &&
      (n > 0 ==> newFile in after.files) &&
      (newFile in disk.files || newFile in disk.dirs + Ancestors(dir) ==> newFile in after.files || newFile in after.dirs)
  {
    assert newFile !in StagedSet(st);
  }

  /** No job removes a directory, whatever its outcome: it only creates directories and copies, writes or unlinks files. */
  lemma JobKeepsDirectories(s: Settings, filePath: string, fileName: string, image: Option<Decoded>, disk: Disk)
    requires image.Some? ==> image.value.Valid()
    ensures disk.dirs <= ApplyAll(disk, Job(s, filePath, fileName, image, disk).events).dirs
  {
    DirsOnlyGrow(disk, Job(s, filePath, fileName, image, disk).events);
  }

  /** A job that does not get past the stat or the planning ends in an uncaught exception. */
  lemma UnreachedJobFails(s: Settings, filePath: string, fileName: string, image: Option<Decoded>, disk: Disk)
    requires image.Some? ==> image.value.Valid()
    ensures !Reaches(s, filePath, disk) ==> Job(s, filePath, fileName, image, disk).outcome.Uncaught?
  {
  }

  /**
   * Without an honoured override, a copy is staged exactly when the output
   * path is the source path itself: with neither the suffix nor the
   * subfolder switch on.
   */
  lemma StagingIffInPlace(s: Settings, filePath: string)
    requires PlainFilePath(filePath) && !OverrideActive(s)
    ensures PlanOutput(s, filePath).Ok?
    ensures var newFile := PlanOutput(s, filePath).value.fullPath;
      Stage(s, filePath, newFile).tmpFile.Some? <==> newFile == filePath
  {
    var b := PlainBase(filePath);
    if !s.suffix && !s.subfolder {
      InPlaceOutput(s, filePath);
    } else {
      OutputDiffersFromSource(s, filePath);
    }
  }

  /**
   * jimp never reads the file it writes, except in one configuration: an
   * honoured override with the subfolder switch on and the suffix switch
   * off, which stages nothing although the output may be the source.
   */
  lemma ReadPathNotOutput(s: Settings, filePath: string)
    requires Parse(filePath).base != "" && PlanOutput(s, filePath).Ok?
    requires !(OverrideActive(s) && s.subfolder && !s.suffix)
    ensures var newFile := PlanOutput(s, filePath).value.fullPath;
      Stage(s, filePath, newFile).readPath != newFile
  {
    var newFile := PlanOutput(s, filePath).value.fullPath;
    if s.suffix || s.subfolder {
      OutputDiffersFromSource(s, filePath);
    } else {
      assert |Stage(s, filePath, newFile).readPath| == |newFile| + |TmpSuffix|;
    }
  }

  /**
   * The exception above happens: with the override honoured, the subfolder
   * switch on and the suffix switch off, a source already in the override's
   * "with-watermark" folder is read and overwritten in place.
   */
  lemma OverrideSubfolderReadsOutput(s: Settings, savedDir: string, base: string)
    requires OverrideActive(s) && s.subfolder && !s.suffix
    requires |s.savepath.value| > 0 && s.savepath.value[0] == savedDir
    requires base != "" && '/' !in base
    requires (savedDir + SubfolderSegment)[..2] != "//"
    ensures var filePath := savedDir + SubfolderSegment + "/" + base;
      PlanOutput(s, filePath).Ok? &&
      Stage(s, filePath, PlanOutput(s, filePath).value.fullPath).readPath == filePath &&
      PlanOutput(s, filePath).value.fullPath == filePath
  {
    var dir := savedDir + SubfolderSegment;
    var filePath := dir + "/" + base;
    assert PlainFilePath(filePath) by {
      assert filePath[..2] == dir[..2] && filePath[|filePath| - 1] == base[|base| - 1];
      assert base[|base| - 1] in base;
    }
    ParseJoined(dir, base);
    assert TargetDir(s, Parse(filePath)) == Dir(dir);
    SameFolderOutput(s, filePath);
  }
}
