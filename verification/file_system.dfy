/**
 * The part of the file system processFile touches: the directories make-dir
 * ensures and the files it copies, writes and unlinks. Every operation is
 * also logged as an event, so that the effects of one job can be stated as a
 * sequence of events and replayed on a disk value.
 */
module FileSystem {

  datatype Event =
    | MadeDir(dir: string)
    | Copied(from: string, to: string)
    | Wrote(path: string)
    | Unlinked(path: string)

  datatype Disk = Disk(dirs: set<string>, files: set<string>)

  /**
   * What make-dir's sync call creates for `dir`: the directory itself and
   * every leading part of it that ends before a separator.
   */
  function Ancestors(dir: string): (r: set<string>)
    ensures dir in r
    ensures forall a :: a in r ==> |a| <= |dir| && a == dir[..|a|]
  {
    {dir} + set i | 0 < i < |dir| && dir[i] == '/' :: dir[..i]
  }

  /**
   * make-dir's sync call succeeds unless a file stands at the directory
   * (EEXIST) or at one of its leading parts (ENOTDIR).
   */
  predicate MakeDirSucceeds(d: Disk, dir: string) {
    Ancestors(dir) !! d.files
  }

  /** fs.copyFileSync fails with EISDIR when the destination is a directory. */
  predicate CopySucceeds(d: Disk, to: string) {
    to !in d.dirs
  }

  /** The effect of one event on the disk. */
  function Apply(d: Disk, e: Event): Disk {
    match e
    case MadeDir(dir) => d.(dirs := d.dirs + Ancestors(dir))
    case Copied(_, to) => d.(files := d.files + {to})
    case Wrote(path) => d.(files := d.files + {path})
    case Unlinked(path) => d.(files := d.files - {path})
  }

  /** The effect of a sequence of events, in order. */
  function ApplyAll(d: Disk, es: seq<Event>): Disk
    decreases |es|
  {
    if es == [] then d else Apply(ApplyAll(d, es[..|es| - 1]), es[|es| - 1])
  }

  /** Running two event sequences one after the other is running their concatenation. */
  lemma {:induction false} ApplyAllAppend(d: Disk, a: seq<Event>, b: seq<Event>)
    ensures ApplyAll(d, a + b) == ApplyAll(ApplyAll(d, a), b)
    decreases |b|
  {
    if b == [] {
      assert a + b == a;
    } else {
      assert (a + b)[..|a + b| - 1] == a + b[..|b| - 1];
      ApplyAllAppend(d, a, b[..|b| - 1]);
    }
  }

  /** Ensuring a directory a second time changes nothing. */
  lemma MakeDirIdempotent(d: Disk, dir: string)
    ensures Apply(Apply(d, MadeDir(dir)), MadeDir(dir)) == Apply(d, MadeDir(dir))
    ensures dir in Apply(d, MadeDir(dir)).dirs
  {
  }

  /** No event removes a directory. */
  lemma {:induction false} DirsOnlyGrow(d: Disk, es: seq<Event>)
    ensures d.dirs <= ApplyAll(d, es).dirs
    decreases |es|
  {
    if es != [] {
      DirsOnlyGrow(d, es[..|es| - 1]);
    }
  }

  /** The paths written, in order. */
  function Writes(es: seq<Event>): seq<string>
    decreases |es|
  {
    if es == [] then []
    else Writes(es[..|es| - 1]) + (if es[|es| - 1].Wrote? then [es[|es| - 1].path] else [])
  }

  lemma {:induction false} WritesAppend(a: seq<Event>, b: seq<Event>)
    ensures Writes(a + b) == Writes(a) + Writes(b)
    decreases |b|
  {
    if b == [] {
      assert a + b == a;
    } else {
      assert (a + b)[..|a + b| - 1] == a + b[..|b| - 1];
      WritesAppend(a, b[..|b| - 1]);
    }
  }

  /** The host's file system, updated in place by the operations processFile calls. */
  class Host {
    var dirs: set<string>
    var files: set<string>
    var events: seq<Event>

    function State(): Disk
      reads this
    {
      Disk(dirs, files)
    }

    constructor (dirs0: set<string>, files0: set<string>)
      ensures State() == Disk(dirs0, files0) && events == []
    {
      dirs, files, events := dirs0, files0, [];
    }

    /**
     * make-dir's sync call: creates the directory and its missing ancestors,
     * or throws, changing nothing, when a file is in the way.
     */
    method MakeDirSync(dir: string) returns (ok: bool)
      modifies this
      ensures ok <==> MakeDirSucceeds(old(State()), dir)
      ensures ok ==> events == old(events) + [MadeDir(dir)] && State() == Apply(old(State()), MadeDir(dir))
      ensures !ok ==> unchanged(this)
    {
      ok := Ancestors(dir) !! files;
      if ok {
        dirs := dirs + Ancestors(dir);
        events := events + [MadeDir(dir)];
      }
    }

    /** fs.copyFileSync: copies onto a file or a new path, or throws, changing nothing, onto a directory. */
    method CopyFileSync(from: string, to: string) returns (ok: bool)
      requires from in files
      modifies this
      ensures ok <==> CopySucceeds(old(State()), to)
      ensures ok ==> events == old(events) + [Copied(from, to)] && State() == Apply(old(State()), Copied(from, to))
      ensures !ok ==> unchanged(this)
    {
      ok := to !in dirs;
      if ok {
        files := files + {to};
        events := events + [Copied(from, to)];
      }
    }

    /** jimp's write of the composited image. */
    method WriteImage(path: string)
      modifies this
      ensures events == old(events) + [Wrote(path)]
      ensures State() == Apply(old(State()), Wrote(path))
    {
      files := files + {path};
      events := events + [Wrote(path)];
    }

    /** fs.unlinkSync */
    method UnlinkSync(path: string)
      requires path in files
      modifies this
      ensures events == old(events) + [Unlinked(path)]
      ensures State() == Apply(old(State()), Unlinked(path))
    {
      files := files - {path};
      events := events + [Unlinked(path)];
    }

    /** fs.statSync, as getFileSize calls it: it succeeds on a file and on a directory. */
    method StatSync(path: string) returns (present: bool)
      ensures present <==> path in State().files || path in State().dirs
    {
      present := path in files || path in dirs;
    }

    /** Whether fs.readFile succeeds: a directory fails with EISDIR. */
    method ReadFile(path: string) returns (ok: bool)
      ensures ok <==> path in State().files
    {
      ok := path in files;
    }
  }
}
