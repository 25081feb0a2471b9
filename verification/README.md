# image-watermark: the processing core in Dafny

image-watermark is an Electron desktop app. A JPEG dropped on its window is
resized, tiled with a half-transparent watermark and written next to the
original, or into a folder chosen in the settings. This project models what
`main.js` does for one dropped file:

- **generateNewPath** plans where the output goes and ensures its directory
  exists. It uses Node's POSIX `path.parse` / `path.format`, the
  `folderswitch`, `savepath`, `subfolder` and `suffix` settings, and
  make-dir's `sync` call.
- **processFile** runs one job:
  - the `getFileSize` stat of the source and the `fs.readFile` error check;
  - the switch on the lower-cased extension;
  - staging a `newFile + '.tmp'` copy when both the suffix and the
    subfolder switches are off;
  - the watermark step;
  - the report sent to the renderer;
  - the `finally` removal of the staged copy.
- **The watermark geometry**:
  - the 320-pixel resize rule;
  - `Math.round` of the tile count;
  - the bottom-anchored tile layout;
  - the composite-and-write loop.

Modules, one per file:

- `wrappers.dfy`: `Option` and `Result`.
- `node_path.dfy` (`NodePath`): `path.parse`, `path.format` and
  `path.extname` for POSIX paths, and their round trips.
- `file_system.dfy` (`FileSystem`): the directories and files a job
  touches, as a `Disk` value and as the mutable `Host` class. `Host` has one
  method per file-system call used: make-dir, copy, jimp's write, unlink,
  the stat in `getFileSize`, and whether `fs.readFile` succeeds. Each call is also logged as an `Event`, so
  a whole job can be replayed with `ApplyAll` and reasoned about as a value.
- `path_planner.dfy` (`PathPlanner`): the settings record, the output plan
  as a function, and `generateNewPath` as a method on the host.
- `compositor.dfy` (`Compositor`): the resize rule, the tile count and
  layout, and the tiling loop as a method with loop invariants.
- `orchestrator.dfy` (`Orchestrator`): the extension switch, the staging
  decision, the job as a function (`Job`) and `processFile` as a method
  proved equal to it.
- `job_properties.dfy` (`JobProperties`): what every job does, proved over
  `Job`.

What jimp computes is a parameter of the job: `Option<Decoded>`, with `None`
when `jimp.read` rejects the images. `Decoded` holds the bitmap sizes and the
value `jimp.AUTO` gives the scaled axis. That value is uninterpreted: it is
any positive integer.

Behaviour of the code that the model keeps as written:

- **A tile count of zero writes nothing.** When the resized watermark is
  more than twice as tall as the resized image, `Math.round` gives 0 tiles.
  No write happens, and there is no write after the loop, so with zero
  tiles nothing is written. The report then calls `getFileSize(newFile)`:
  - if nothing exists at `newFile`, the stat throws and the catch reports
    the error;
  - if an older file, or a directory, exists there, the stat succeeds and
    success is reported for it.

  `JobProperties.JpegJobEffect` and `JobProperties.SuccessLeavesOutput`
  state this.
- **`savepath` is an empty array while the override is honoured.**
  `savepath[0]` is then `undefined`:
  - `make-dir` throws on it, which nothing catches;
  - with the subfolder switch on, the directory becomes the string
    `"undefined/with-watermark"`.
- **A file or directory in the way stops the job unreported.** Both calls
  throw inside the `fs.readFile` callback, before the promise chain, so
  nothing reports the error and no cleanup runs:
  - make-dir throws when a file stands at the output directory or at one
    of its leading parts;
  - `fs.copyFileSync` throws when a directory stands at `newFile + '.tmp'`.
    The directory has already been ensured by then.
- **No copy is staged in one collision case.** The temporary copy exists so
  that jimp does not read the file it overwrites. It is staged only when
  both the suffix and the subfolder switches are off. With an honoured
  override, the subfolder switch on and the suffix switch off, a source
  already inside `<savepath[0]>/with-watermark` is planned onto itself and
  nothing is staged. `JobProperties.OverrideSubfolderReadsOutput` proves
  this for the source spelled `savepath[0] + "/with-watermark/" + base`,
  for every non-empty `base` without a separator, when
  `savepath[0] + "/with-watermark"` does not start with "//". That
  condition leaves out `savepath[0] == "/"` and directories written with a
  leading "//". Other spellings of the same file, such as a `savepath[0]`
  with a trailing separator, are not covered.

## Model

| member | source | states |
|---|---|---|
| NodePath.Parse | main.js:312 | `path.parse`: the root is "" or "/", the base name holds no separator, and name followed by extension is the base name |
| NodePath.ExtOf | main.js:230 | the extension is empty or starts with a dot, and the name followed by it gives back the base name |
| NodePath.FormatParse | main.js:312-331 | formatting a parsed file path (non-empty, no trailing "/", not starting with "//") gives back the path itself |
| NodePath.Format | main.js:331 | `path.format`: the path starts with `dir`, or the root when `dir` is empty, and ends with the base (name + extension when the base is empty); a single "/" separates them unless the directory is empty or is the root itself |
| NodePath.ParseFormat | main.js:331 | parsing a formatted path gives back its base name, and its directory (the root when the directory is empty) |
| FileSystem.Ancestors | main.js:325 | the directories make-dir creates include the target itself, and each is a leading part of the target |
| FileSystem.MakeDirIdempotent | main.js:325 | ensuring a directory twice is the same as ensuring it once, and the directory exists afterwards |
| FileSystem.Host.MakeDirSync | main.js:325 | succeeds exactly when no file stands at the directory or at one of its leading parts; then it logs one make-dir event and adds the directory and its ancestors to the host's directories, otherwise it changes nothing |
| FileSystem.Host.CopyFileSync | main.js:241 | needs an existing source; succeeds exactly when the destination is not a directory, and then logs the copy and adds the destination to the files; otherwise it changes nothing |
| FileSystem.Host.WriteImage | main.js:275 | logs the write and adds the written path to the files |
| FileSystem.Host.UnlinkSync | main.js:291 | needs an existing file; logs the unlink and removes that file |
| FileSystem.Host.StatSync | main.js:341 | the stat succeeds exactly when the path is a file or a directory on the host |
| FileSystem.Host.ReadFile | main.js:220-225 | reading succeeds exactly when the path is a file on the host; a directory fails |
| PathPlanner.TargetDir | main.js:314-323 | the directory is undefined exactly when the override is honoured with an empty savepath and the subfolder switch is off; otherwise it is savepath[0] (or "undefined") under an honoured override, else the source's directory, with "/with-watermark" appended when the subfolder switch is on |
| PathPlanner.PlanOutput | main.js:310-332 | planning fails exactly when the override is honoured with an empty savepath and no subfolder, which makes make-dir throw on undefined |
| PathPlanner.GenerateNewPath | main.js:310-332 | fails, changing nothing on the host, when the directory is undefined or a file is in make-dir's way; otherwise it ensures the planned directory (one event) and returns the planned path |
| PathPlanner.OutputLocation | main.js:314-329 | the output directory is savepath[0] (or "undefined") when the override is honoured, else the source's directory, with "/with-watermark" appended once when the subfolder switch is on; the output parses back to that directory and to the base name name + ".watermark" (when the suffix switch is on) + extension; the extension and the name are kept, letter case included |
| PathPlanner.KeepsExtension | main.js:328-329 | putting ".watermark" (or nothing) between a name and its extension keeps that extension and lengthens the name by exactly the marker |
| PathPlanner.InPlaceOutput | main.js:312-331 | with no suffix, no subfolder and no honoured override, the output is the source path itself, in the source's directory |
| PathPlanner.OutputDiffersFromSource | main.js:320-329 | the suffix switch always moves the output away from the source; so does the subfolder switch when no override is honoured |
| Compositor.RoundDiv | main.js:262 | Math.round(a / b): the result is within half of b of the quotient, a half rounding up |
| Compositor.ResizeSource | main.js:253-257 | a portrait source gets width 320, any other source (square included) height 320; both sides stay positive |
| Compositor.ResizeWatermark | main.js:259 | the watermark is resized to the width of the resized source |
| Compositor.ResizeKeepsShortSide | main.js:253-257 | if jimp's AUTO value is the proportional size rounded, both sides end up at least 320 and the orientation is kept |
| Compositor.Layout | main.js:262-268 | one placement per tile counted by Math.round(height / tile height) |
| Compositor.LayoutShape | main.js:266-268 | every tile has x = 0, each tile sits exactly one tile height below the previous, the first at H - n*h and the last ending on the bottom edge |
| Compositor.StackMeetsTop | main.js:262-268 | the top of the stack lies within half a tile of the top edge, and the stack covers the image exactly when the tile height divides it |
| Compositor.ApplyTileWrites | main.js:266-276 | n writes of the output leave the disk as one write does, zero writes leave it unchanged, and the writes are n copies of the output path |
| Compositor.TileWatermark | main.js:264-276 | the loop places the tiles at exactly the layout's offsets, in order, and writes the output once per tile and does nothing else to the host |
| Orchestrator.Accepts | main.js:230-234 | the JPEG branch is taken exactly when the base name ends in ".jpg" or ".jpeg", in any letter case, after a non-empty name |
| Orchestrator.Stage | main.js:237-244 | a copy is staged, and read from, exactly when the suffix and subfolder switches are both off; it is named after the output with a suffix, so it is never the output itself; otherwise jimp reads the source |
| Orchestrator.Job | main.js:208-303 | the job throws at the stat exactly when the source is neither a file nor a directory; it has no events exactly when it does not get past the stat, the read and make-dir, and then ends in an uncaught exception; otherwise its first event ensures the planned directory, and the only exception left is the staging copy's, right after it |
| Orchestrator.Dispatch | main.js:230-300 | "Only JPG allowed" exactly for a name that is not a JPEG, and then nothing else happens; the only uncaught exception is the staging copy's, with no events |
| Orchestrator.Watermark | main.js:236-292 | the branch throws, with no events, exactly when a copy is staged onto a directory; otherwise the report names the output and is never "Only JPG allowed", it says the images could not be read exactly when jimp failed, and a staged copy is made by the first event and removed by the last |
| Orchestrator.ProcessFile | main.js:208-303 | the outcome, the logged events and the host's new state are those of the job function `Job` |
| Orchestrator.JobWhenPlanned | main.js:227-230 | a job whose source is a readable file and whose make-dir succeeds ensures the output directory first and then dispatches on the extension |
| Orchestrator.DispatchByExtension | main.js:230-300 | the switch: a JPEG runs the watermark branch, anything else only reports "Only JPG allowed" |
| Orchestrator.WatermarkJpeg | main.js:236-292 | stage, tile, report and clean up, with the outcome, events and new state of the branch function `Watermark` |
| JobProperties.WatermarkEffect | main.js:237-292 | the JPEG branch: a copy onto a directory throws and does nothing else; otherwise the staged copy, one write per tile, the removal of the copy; afterwards the output exists when a tile was written and the copy is gone; success is reported iff the images were read and the output then exists |
| JobProperties.JpegJobEffect | main.js:227-292 | a JPEG job whose staging copy hits a directory stops with an uncaught exception after make-dir; otherwise its events in order and the whole disk afterwards (output directory and ancestors added, output added when a tile was written, staged copy gone, nothing else changed); success iff the images were read and either a tile was written or something (a file or a directory) already stood at the output path |
| JobProperties.RejectedExtension | main.js:227-300 | "Only JPG allowed" is reported iff the job gets past the stat, the read and make-dir with a non-JPEG name; such a job only ensures the output directory |
| JobProperties.TempFileLifecycle | main.js:237-292 | the staged copy is made right after make-dir, removed by the last event on success and on failure alike, and absent afterwards; no other file is copied or removed, and nothing when no copy is staged; a copy onto a directory leaves make-dir as the only event |
| JobProperties.WritesMatchTiles | main.js:266-276 | the job's only writes are the tiles: the output path once per tile, none when jimp fails, the count rounds to zero or the staging copy fails |
| JobProperties.SuccessLeavesOutput | main.js:284-286 | a job that reports success went through the JPEG branch with readable images, and the reported file is the planned output, which exists afterwards in the ensured directory: as the written file when a tile was written, otherwise as the file or directory already there |
| JobProperties.JobKeepsDirectories | main.js:208-303 | no job removes a directory, whatever its outcome |
| JobProperties.StagingIffInPlace | main.js:237-244 | without an honoured override, a copy is staged exactly when the planned output is the source path itself, for a source path that is non-empty, has no trailing "/" and does not start with "//" |
| JobProperties.ReadPathNotOutput | main.js:237-250 | jimp never reads the path it writes, except with an honoured override, the subfolder switch on and the suffix switch off |
| JobProperties.OverrideSubfolderReadsOutput | main.js:237-250 | in that exception, the source `savepath[0] + "/with-watermark/" + base` (base non-empty, without a separator; `savepath[0] + "/with-watermark"` not starting with "//") is planned onto itself and read from itself |

## Left out

- The Electron shell is not modelled (main.js:1-201, 357-378): windows, touch bar, menu, `app` events, IPC, dialogs, auto-update, window focus, `addRecentDocument` and the renderer messages. It is UI and platform plumbing. The report is modelled as the `Report` value that would be sent.
- Settings persistence and the default-settings merge (main.js:96-107) are not modelled. Settings are a read-only record of booleans and an optional list of directories. Non-boolean values of the switches are not modelled.
- `getFileSize` returns no sizes in the model: neither `sizeOrig` nor the size of the output is modelled. Only whether the stat succeeds is. The `mb` branch (float division) is never taken by the code.
- `fs.readFile` and `fs.copyFileSync` fail in the model only on a directory, and make-dir only on a file in its way. Failures the disk model cannot express, such as missing permissions or I/O errors, are not modelled, and neither is a failing jimp `write`.
- The disk model does not keep a path from being both a file and a directory, or a file's parent from being missing. Each operation's success condition is stated on the paths it touches.
- jimp is an oracle. Decoding, resampling, opacity, `BLEND_DESTINATION_OVER` blending, pixel contents and the floating-point rounding of `jimp.AUTO` are outside the model. The AUTO sizes are positive integers supplied with the job.
- The Promise chain is modelled as running to completion in order, before the report and the cleanup. Asynchronous completion of jimp's `write` calls and concurrency between several dropped files are not modelled.
- make-dir resolves relative paths against the working directory. The model records the directory string as given and adds its "/"-separated leading parts.
- `path.parse` is modelled for POSIX paths. Backslashes have no special meaning in it, and the special case of `path.parse` on a root followed by ".." is not reproduced.
- `toLowerCase` is modelled on ASCII letters only. This decides the ".jpg"/".jpeg" switch exactly, because the targets are ASCII.
- `TileWatermark` places every tile, including tiles whose offset is negative: the model keeps jimp's offsets as computed and does not model clipping.
- The unused imports and variables are not modelled (`svgo`, `mozjpeg`, `pngquant`, `gifsicle`, `execFile`, `watermarkMarginPercentage`).
