/** An abstract file system: a map from absolute path to entry, the paths
    whose metadata cannot be read at all, and the process umask. Reads are
    functions of that state; the writes the apply step performs are methods
    of `FileSystem`, which also keeps a ghost log of them. */
module Fs {
  import opened Wrappers
  import opened Paths

  datatype Kind = Regular | Directory | Symlink

  /** One entry. For a symlink `content` holds the target path. `readable`
      says whether the entry can be opened for reading (for a directory:
      listed). */
  datatype Entry = Entry(kind: Kind, content: string, perm: bv9, readable: bool)

  type Tree = map<Path, Entry>

  /** The answer to a metadata query: the entry, "does not exist", or any
      other failure. */
  datatype Probe = Found(entry: Entry) | Missing | ProbeFailed

  /** os.Lstat: the entry itself, symlinks not followed. */
  function Lstat(t: Tree, broken: set<Path>, p: Path): Probe {
    if p in broken then ProbeFailed
    else if p in t then Found(t[p])
    else Missing
  }

  /** os.Stat: as Lstat, but a symlink is replaced by what it points to.
      A link to a link counts as a failure (deeper resolution is not
      modelled). */
  function Stat(t: Tree, broken: set<Path>, p: Path): Probe {
    var q := Lstat(t, broken, p);
    if q.Found? && q.entry.kind == Symlink then
      var target := Lstat(t, broken, q.entry.content);
      if target.Found? && target.entry.kind == Symlink then ProbeFailed else target
    else q
  }

  /** os.ReadFile: the content of a readable regular file, following a
      symlink; `None` for anything else. */
  function ReadFile(t: Tree, broken: set<Path>, p: Path): (r: Option<string>)
    ensures r.Some? ==> Stat(t, broken, p).Found? && Stat(t, broken, p).entry.kind == Regular
  {
    var s := Stat(t, broken, p);
    if s.Found? && s.entry.kind == Regular && s.entry.readable then Some(s.entry.content) else None
  }

  /** A readable regular file that is not a link reads as its content. */
  lemma ReadRegular(t: Tree, broken: set<Path>, p: Path)
    requires p in t && p !in broken && t[p].kind == Regular && t[p].readable
    ensures ReadFile(t, broken, p) == Some(t[p].content)
  {
  }

  /** The file-system calls the apply step makes, in the order they occur. */
  datatype Op =
    | Created(path: Path)
    | Wrote(path: Path)
    | ChangedMode(path: Path)
    | Renamed(src: Path, dst: Path)
    | Removed(path: Path)

  class FileSystem {
    var entries: Tree
    const broken: set<Path>
    /** Permission bits cleared on every file the process creates. */
    const umask: bv9
    ghost var log: seq<Op>

    constructor (entries0: Tree, broken0: set<Path>, umask0: bv9)
      ensures entries == entries0 && broken == broken0 && umask == umask0 && log == []
    {
      entries := entries0;
      broken := broken0;
      umask := umask0;
      log := [];
    }

    /** Creates an empty regular file that must not exist yet
        (O_CREATE|O_EXCL); `fail` stands for any refusal by the system.
        The requested permission is filtered by the umask. */
    method CreateFile(p: Path, perm: bv9, fail: bool) returns (ok: bool)
      modifies this
      ensures ok <==> !fail && Lstat(old(entries), broken, p) == Missing
      ensures ok ==> entries == old(entries)[p := Entry(Regular, "", perm & !umask, true)]
                     && log == old(log) + [Created(p)]
      ensures !ok ==> entries == old(entries) && log == old(log)
    {
      ok := !fail && Lstat(entries, broken, p) == Missing;
      if ok {
        entries := entries[p := Entry(Regular, "", perm & !umask, true)];
        log := log + [Created(p)];
      }
    }

    /** Sets the content of a file this process holds open. */
    method WriteContent(p: Path, data: string)
      requires p in entries
      modifies this
      ensures entries == old(entries)[p := old(entries)[p].(content := data)]
      ensures log == old(log) + [Wrote(p)]
    {
      entries := entries[p := entries[p].(content := data)];
      log := log + [Wrote(p)];
    }

    /** fchmod on an open file: the bits are set exactly, no umask. */
    method Chmod(p: Path, perm: bv9)
      requires p in entries
      modifies this
      ensures entries == old(entries)[p := old(entries)[p].(perm := perm)]
      ensures log == old(log) + [ChangedMode(p)]
    {
      entries := entries[p := entries[p].(perm := perm)];
      log := log + [ChangedMode(p)];
    }

    /** os.Rename: moves `src` over `dst`, replacing whatever `dst` was
        unless it is a directory. Renaming a path onto itself succeeds and
        changes nothing. */
    method Rename(src: Path, dst: Path, fail: bool) returns (ok: bool)
      requires src in entries
      modifies this
      ensures ok <==> !fail && !(dst in old(entries) && old(entries)[dst].kind == Directory)
      ensures ok ==> entries == (old(entries) - {src})[dst := old(entries)[src]]
                     && log == old(log) + [Renamed(src, dst)]
      ensures !ok ==> entries == old(entries) && log == old(log)
    {
      ok := !fail && !(dst in entries && entries[dst].kind == Directory);
      if ok {
        entries := (entries - {src})[dst := entries[src]];
        log := log + [Renamed(src, dst)];
      }
    }

    /** os.Remove of a file. */
    method Remove(p: Path, fail: bool) returns (ok: bool)
      modifies this
      ensures ok == !fail
      ensures ok ==> entries == old(entries) - {p} && log == old(log) + [Removed(p)]
      ensures !ok ==> entries == old(entries) && log == old(log)
    {
      ok := !fail;
      if ok {
        entries := entries - {p};
        log := log + [Removed(p)];
      }
    }
  }
}
