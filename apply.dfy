/** Writing new content over a file without ever exposing a half-written
    target (internal/apply): stat the target, optionally copy it to a fresh
    backup name, write a temporary file in the same directory, give it the
    target's permission bits, and rename it over the target. Every system
    call that can fail is given a fault flag, so each failure point is a
    separate, checked path. */
module Apply {
  import opened Wrappers
  import opened Strings
  import opened Paths
  import opened Fs

  datatype Options = Options(backup: bool, backupSuffix: string)

  /** Which calls fail. A failing copy or temp write leaves the first
      `backupKept` / `tempKept` characters in the file. */
  datatype Faults = Faults(
    backupCreate: bool,
    backupCopy: bool,
    backupKept: nat,
    backupSync: bool,
    tempCreate: bool,
    tempWrite: bool,
    tempKept: nat,
    tempChmod: bool,
    tempSync: bool,
    tempClose: bool,
    rename: bool,
    tempRemove: bool)

  datatype Stage =
    | StatStage
    | BackupNameStage
    | BackupStage
    | TempStage
    | WriteStage
    | ChmodStage
    | SyncStage
    | CloseStage
    | RenameStage

  datatype Outcome = Applied | Failed(stage: Stage)

  /** The failures that happen after the temporary file exists. */
  predicate AfterTempCreated(o: Outcome) {
    o.Failed? && o.stage in {WriteStage, ChmodStage, SyncStage, CloseStage, RenameStage}
  }

  const DefaultSuffix := ".bak"
  const MaxBackupIndex := 999
  /** 0600, the mode os.CreateTemp asks for. */
  const TempPerm: bv9 := 0x180

  function Prefix(s: string, n: nat): (r: string)
    ensures r <= s
  {
    if n < |s| then s[..n] else s
  }

  function Suffix(opts: Options): string {
    if opts.backupSuffix == "" then DefaultSuffix else opts.backupSuffix
  }

  /** The i-th backup name tried: `base+suffix`, then `base+suffix.i`. */
  function BackupCandidate(dir: Path, base: string, suffix: string, i: nat): Path {
    if i == 0 then Paths.Join(dir, base + suffix)
    else Paths.Join(dir, base + suffix + "." + Decimal(i))
  }

  /** The name os.CreateTemp(dir, base+".tmp-*") makes, given the random
      part it draws. */
  function TempPath(path: Path, random: string): Path {
    Paths.Join(Dir(path), Base(path) + ".tmp-" + random)
  }

  predicate Free(t: Tree, broken: set<Path>, p: Path) {
    Lstat(t, broken, p) == Missing
  }

  /** The first candidate from index `i` on (up to MaxBackupIndex) whose
      probe says "does not exist". */
  function FirstFreeBackup(t: Tree, broken: set<Path>, dir: Path, base: string, suffix: string, i: nat): (r: Option<Path>)
    ensures r.Some? ==> Free(t, broken, r.value)
    ensures r.Some? ==> exists k | i <= k <= MaxBackupIndex :: r.value == BackupCandidate(dir, base, suffix, k)
    decreases MaxBackupIndex + 1 - i
  {
    if i > MaxBackupIndex then None
    else if Free(t, broken, BackupCandidate(dir, base, suffix, i)) then Some(BackupCandidate(dir, base, suffix, i))
    else FirstFreeBackup(t, broken, dir, base, suffix, i + 1)
  }

  /** uniqueBackupPath. */
  method UniqueBackupPath(t: Tree, broken: set<Path>, dir: Path, base: string, suffix: string) returns (r: Option<Path>)
    ensures r == FirstFreeBackup(t, broken, dir, base, suffix, 0)
  {
    var cand := Paths.Join(dir, base + suffix);
    if Lstat(t, broken, cand) == Missing {
      return Some(cand);
    }
    for i := 1 to 1000
      invariant FirstFreeBackup(t, broken, dir, base, suffix, 0) == FirstFreeBackup(t, broken, dir, base, suffix, i)
    {
      var p := Paths.Join(dir, base + suffix + "." + Decimal(i));
      assert p == BackupCandidate(dir, base, suffix, i);
      if Lstat(t, broken, p) == Missing {
        return Some(p);
      }
    }
    return None;
  }

  /** The i-th candidate is already taken. */
  predicate Taken(t: Tree, broken: set<Path>, dir: Path, base: string, suffix: string, i: nat) {
    !Free(t, broken, BackupCandidate(dir, base, suffix, i))
  }

  /** No slot is chosen exactly when every candidate from `i` on is taken. */
  lemma {:induction false} FirstFreeBackupNone(t: Tree, broken: set<Path>, dir: Path, base: string, suffix: string, i: nat)
    ensures FirstFreeBackup(t, broken, dir, base, suffix, i).None?
        <==> forall j | i <= j <= MaxBackupIndex :: Taken(t, broken, dir, base, suffix, j)
    decreases MaxBackupIndex + 1 - i
  {
    if i <= MaxBackupIndex {
      if Taken(t, broken, dir, base, suffix, i) {
        FirstFreeBackupNone(t, broken, dir, base, suffix, i + 1);
        assert FirstFreeBackup(t, broken, dir, base, suffix, i) == FirstFreeBackup(t, broken, dir, base, suffix, i + 1);
        if forall j | i + 1 <= j <= MaxBackupIndex :: Taken(t, broken, dir, base, suffix, j) {
          forall j | i <= j <= MaxBackupIndex ensures Taken(t, broken, dir, base, suffix, j) {
            if j > i {
              assert i + 1 <= j;
            }
          }
        }
      } else {
        assert FirstFreeBackup(t, broken, dir, base, suffix, i).Some?;
        assert !Taken(t, broken, dir, base, suffix, i);
      }
    }
  }

  /** A taken index in front of a taken run extends the run. */
  lemma TakenFrom(t: Tree, broken: set<Path>, dir: Path, base: string, suffix: string, i: nat, k: nat)
    requires Taken(t, broken, dir, base, suffix, i)
    requires forall j | i + 1 <= j < k :: Taken(t, broken, dir, base, suffix, j)
    ensures forall j | i <= j < k :: Taken(t, broken, dir, base, suffix, j)
  {
  }

  /** A chosen slot is the k-th candidate for some k: free, with every
      earlier candidate taken. */
  lemma FirstFreeBackupIsFirst(t: Tree, broken: set<Path>, dir: Path, base: string, suffix: string, i: nat)
    requires FirstFreeBackup(t, broken, dir, base, suffix, i).Some?
    ensures exists k | i <= k <= MaxBackupIndex ::
      && FirstFreeBackup(t, broken, dir, base, suffix, i).value == BackupCandidate(dir, base, suffix, k)
      && !Taken(t, broken, dir, base, suffix, k)
      && forall j | i <= j < k :: Taken(t, broken, dir, base, suffix, j)
  {
    var k := FirstFreeIndex(t, broken, dir, base, suffix, i);
  }

  /** The index of the chosen candidate, for the lemma above. */
  lemma {:induction false} FirstFreeIndex(t: Tree, broken: set<Path>, dir: Path, base: string, suffix: string, i: nat)
    returns (k: nat)
    requires FirstFreeBackup(t, broken, dir, base, suffix, i).Some?
    ensures i <= k <= MaxBackupIndex
    ensures FirstFreeBackup(t, broken, dir, base, suffix, i).value == BackupCandidate(dir, base, suffix, k)
    ensures !Taken(t, broken, dir, base, suffix, k)
    ensures forall j | i <= j < k :: Taken(t, broken, dir, base, suffix, j)
    decreases MaxBackupIndex + 1 - i
  {
    if Taken(t, broken, dir, base, suffix, i) {
      assert FirstFreeBackup(t, broken, dir, base, suffix, i) == FirstFreeBackup(t, broken, dir, base, suffix, i + 1);
      k := FirstFreeIndex(t, broken, dir, base, suffix, i + 1);
      TakenFrom(t, broken, dir, base, suffix, i, k);
    } else {
      k := i;
    }
  }

  /** The content a backup copy ends up with: all of a regular source when
      only the final sync fails, the characters copied before a failing
      copy, and nothing for a source that is not a regular file. */
  function CopiedContent(src: Entry, faults: Faults): string {
    if src.kind != Regular then ""
    else if faults.backupCopy then Prefix(src.content, faults.backupKept)
    else src.content
  }

  /** What one stage did: its result, the tree it left behind and the
      calls it made, in order. */
  datatype Effect<T> = Effect(result: T, entries: Tree, ops: seq<Op>)

  /** `t` and `u` agree at `q`. */
  predicate Agree(t: Tree, u: Tree, q: Path) {
    (q in t <==> q in u) && (q in t ==> t[q] == u[q])
  }

  /** `t` has the entry `e` at `p`. */
  predicate Holds(t: Tree, p: Path, e: Entry) {
    p in t && t[p] == e
  }

  /** The entry a complete copy of `src` creates under `umask`. */
  function Copy(src: Entry, umask: bv9): Entry {
    Entry(Regular, src.content, src.perm & !umask, true)
  }

  /** copyFile into a name that does not exist yet: open the source
      (following a symlink; it must be readable), create the destination
      with `mode` under the umask, copy, sync. A created destination stays,
      whatever fails afterwards. */
  function CopySpec(t: Tree, broken: set<Path>, umask: bv9, src: Path, dst: Path, mode: bv9, faults: Faults): Effect<bool>
    requires Free(t, broken, dst)
  {
    var s := Stat(t, broken, src);
    if !(s.Found? && s.entry.readable) || faults.backupCreate then Effect(false, t, [])
    else
      var created := t[dst := Entry(Regular, "", mode & !umask, true)];
      Effect(s.entry.kind == Regular && !faults.backupCopy && !faults.backupSync,
             created[dst := created[dst].(content := CopiedContent(s.entry, faults))],
             [Created(dst), Wrote(dst)])
  }

  /** copyFile. */
  method CopyFile(fs: FileSystem, src: Path, dst: Path, mode: bv9, faults: Faults) returns (ok: bool)
    requires Free(fs.entries, fs.broken, dst)
    modifies fs
    ensures var c := CopySpec(old(fs.entries), fs.broken, fs.umask, src, dst, mode, faults);
      ok == c.result && fs.entries == c.entries && fs.log == old(fs.log) + c.ops
  {
    ghost var c := CopySpec(fs.entries, fs.broken, fs.umask, src, dst, mode, faults);
    var s := Stat(fs.entries, fs.broken, src);
    if !(s.Found? && s.entry.readable) {
      return false;
    }
    ghost var t0, log0 := fs.entries, fs.log;
    var created := fs.CreateFile(dst, mode, faults.backupCreate);
    if !created {
      return false;
    }
    ghost var t1 := fs.entries;
    assert t1 == t0[dst := Entry(Regular, "", mode & !fs.umask, true)];
    var content := CopiedContent(s.entry, faults);
    fs.WriteContent(dst, content);
    assert fs.entries == t1[dst := t1[dst].(content := content)] == c.entries;
    assert fs.log == log0 + [Created(dst), Wrote(dst)];
    ok := s.entry.kind == Regular && !faults.backupCopy && !faults.backupSync;
  }

  /** The deferred cleanup once the temp file is not renamed: remove it,
      which may itself fail. The failure reported is the earlier one. */
  function Cleanup(t: Tree, tmp: Path, stage: Stage, ops: seq<Op>, faults: Faults): Effect<Option<Stage>> {
    if faults.tempRemove then Effect(Some(stage), t, ops)
    else Effect(Some(stage), t - {tmp}, ops + [Removed(tmp)])
  }

  /** Write, chmod, sync and close the temp file `tmp`, then rename it over
      `path`; the first failing call stops the sequence and triggers the
      cleanup. A failing write leaves a prefix of `data` behind. */
  function ReplaceSpec(t: Tree, path: Path, tmp: Path, data: string, mode: bv9, faults: Faults): Effect<Option<Stage>>
    requires tmp in t
  {
    if faults.tempWrite then
      Cleanup(t[tmp := t[tmp].(content := Prefix(data, faults.tempKept))], tmp, WriteStage, [Wrote(tmp)], faults)
    else
      var written := t[tmp := t[tmp].(content := data)];
      if faults.tempChmod then Cleanup(written, tmp, ChmodStage, [Wrote(tmp)], faults)
      else
        var moded := written[tmp := written[tmp].(perm := mode)];
        var ops := [Wrote(tmp), ChangedMode(tmp)];
        if faults.tempSync then Cleanup(moded, tmp, SyncStage, ops, faults)
        else if faults.tempClose then Cleanup(moded, tmp, CloseStage, ops, faults)
        else if faults.rename || (path in moded && moded[path].kind == Directory) then
          Cleanup(moded, tmp, RenameStage, ops, faults)
        else Effect(None, (moded - {tmp})[path := moded[tmp]], ops + [Renamed(tmp, path)])
  }

  /** Steps 3 and 4 of WriteAtomic after the temp file exists. */
  method ReplaceViaTemp(fs: FileSystem, path: Path, tmp: Path, data: string, mode: bv9, faults: Faults)
    returns (failure: Option<Stage>)
    requires tmp in fs.entries
    modifies fs
    ensures var e := ReplaceSpec(old(fs.entries), path, tmp, data, mode, faults);
      failure == e.result && fs.entries == e.entries && fs.log == old(fs.log) + e.ops
  {
    var renamed := false;
    failure := None;
    if faults.tempWrite {
      fs.WriteContent(tmp, Prefix(data, faults.tempKept));
      failure := Some(WriteStage);
    } else {
      fs.WriteContent(tmp, data);
      if faults.tempChmod {
        failure := Some(ChmodStage);
      } else {
        fs.Chmod(tmp, mode);
        if faults.tempSync {
          failure := Some(SyncStage);
        } else if faults.tempClose {
          failure := Some(CloseStage);
        } else {
          renamed := fs.Rename(tmp, path, faults.rename);
          if !renamed {
            failure := Some(RenameStage);
          }
        }
      }
    }
    // the deferred cleanup
    if !renamed {
      var _ := fs.Remove(tmp, faults.tempRemove);
    }
  }

  /** os.CreateTemp(dir, base+".tmp-*") drawing the name `tmp`: an
      exclusive create with mode 0600 under the umask, then ReplaceSpec. */
  function TempSpec(t: Tree, broken: set<Path>, umask: bv9, path: Path, data: string, mode: bv9, faults: Faults, tmp: Path): Effect<Option<Stage>> {
    if faults.tempCreate || !Free(t, broken, tmp) then Effect(Some(TempStage), t, [])
    else
      var r := ReplaceSpec(t[tmp := Entry(Regular, "", TempPerm & !umask, true)], path, tmp, data, mode, faults);
      Effect(r.result, r.entries, [Created(tmp)] + r.ops)
  }

  /** Steps 3 and 4 of WriteAtomic, once CreateTemp has drawn `tmp`. */
  method TempAndRename(fs: FileSystem, path: Path, tmp: Path, data: string, mode: bv9, faults: Faults)
    returns (failure: Option<Stage>)
    modifies fs
    ensures var e := TempSpec(old(fs.entries), fs.broken, fs.umask, path, data, mode, faults, tmp);
      failure == e.result && fs.entries == e.entries && fs.log == old(fs.log) + e.ops
  {
    var created := fs.CreateFile(tmp, TempPerm, faults.tempCreate);
    if !created {
      return Some(TempStage);
    }
    ghost var t1, log1 := fs.entries, fs.log;
    ghost var r := ReplaceSpec(t1, path, tmp, data, mode, faults);
    failure := ReplaceViaTemp(fs, path, tmp, data, mode, faults);
    assert fs.log == old(fs.log) + ([Created(tmp)] + r.ops) by {
      assert log1 == old(fs.log) + [Created(tmp)];
      assert fs.log == log1 + r.ops;
    }
  }

  /** The copy succeeds exactly when the source resolves to a readable
      regular file and no call on the destination fails. */
  lemma CopyOutcome(t: Tree, broken: set<Path>, umask: bv9, src: Path, dst: Path, mode: bv9, faults: Faults)
    requires Free(t, broken, dst)
    ensures var s := Stat(t, broken, src);
      CopySpec(t, broken, umask, src, dst, mode, faults).result <==>
        s.Found? && s.entry.readable && s.entry.kind == Regular
        && !faults.backupCreate && !faults.backupCopy && !faults.backupSync
  {
  }

  /** Step 2: pick the first free backup name and copy the target there. */
  function BackupSpec(t: Tree, broken: set<Path>, umask: bv9, path: Path, mode: bv9, suffix: string, faults: Faults): Effect<Option<Stage>> {
    var bp := FirstFreeBackup(t, broken, Dir(path), Base(path), suffix, 0);
    if bp.None? then Effect(Some(BackupNameStage), t, [])
    else
      var c := CopySpec(t, broken, umask, path, bp.value, mode, faults);
      Effect(if c.result then None else Some(BackupStage), c.entries, c.ops)
  }

  /** Step 2 of WriteAtomic. */
  method Backup(fs: FileSystem, path: Path, mode: bv9, suffix: string, faults: Faults) returns (failure: Option<Stage>)
    modifies fs
    ensures var e := BackupSpec(old(fs.entries), fs.broken, fs.umask, path, mode, suffix, faults);
      failure == e.result && fs.entries == e.entries && fs.log == old(fs.log) + e.ops
  {
    var bp := UniqueBackupPath(fs.entries, fs.broken, Dir(path), Base(path), suffix);
    if bp.None? {
      return Some(BackupNameStage);
    }
    var ok := CopyFile(fs, path, bp.value, mode, faults);
    failure := if ok then None else Some(BackupStage);
  }

  /** What WriteAtomic did: how it ended, the backup name it chose (if it
      got that far with backups on), the tree it left and the calls made
      for the backup and for the temp file. */
  datatype Attempt = Attempt(outcome: Outcome, backup: Option<Path>, entries: Tree, backupOps: seq<Op>, tempOps: seq<Op>)

  /** WriteAtomic as a function of the tree. The final directory sync
      changes nothing and its error is discarded, so it does not appear. */
  function WriteSpec(t: Tree, broken: set<Path>, umask: bv9, path: Path, data: string, opts: Options, faults: Faults, tmp: Path): Attempt {
    var st := Stat(t, broken, path);
    if !st.Found? then Attempt(Failed(StatStage), None, t, [], [])
    else
      var mode := st.entry.perm;
      var backup := if opts.backup then FirstFreeBackup(t, broken, Dir(path), Base(path), Suffix(opts), 0) else None;
      var b := if opts.backup then BackupSpec(t, broken, umask, path, mode, Suffix(opts), faults) else Effect(None, t, []);
      if b.result.Some? then Attempt(Failed(b.result.value), backup, b.entries, b.ops, [])
      else
        var r := TempSpec(b.entries, broken, umask, path, data, mode, faults, tmp);
        Attempt(if r.result.None? then Applied else Failed(r.result.value), backup, r.entries, b.ops, r.ops)
  }

  /** WriteAtomic. `random` is the name part os.CreateTemp draws. */
  method WriteAtomic(fs: FileSystem, path: Path, data: string, opts: Options, faults: Faults, random: string)
    returns (outcome: Outcome)
    modifies fs
    ensures var a := WriteSpec(old(fs.entries), fs.broken, fs.umask, path, data, opts, faults, TempPath(path, random));
      outcome == a.outcome && fs.entries == a.entries && fs.log == old(fs.log) + a.backupOps + a.tempOps
  {
    var st := Stat(fs.entries, fs.broken, path);
    if !st.Found? {
      return Failed(StatStage);
    }
    var mode := st.entry.perm;
    ghost var t0, log0 := fs.entries, fs.log;
    ghost var b: Effect<Option<Stage>> := Effect(None, t0, []);
    if opts.backup {
      var bak := opts.backupSuffix;
      if bak == "" {
        bak := DefaultSuffix;
      }
      b := BackupSpec(t0, fs.broken, fs.umask, path, mode, bak, faults);
      var failure := Backup(fs, path, mode, bak, faults);
      if failure.Some? {
        return Failed(failure.value);
      }
    }
    assert b.result.None? && fs.entries == b.entries && fs.log == log0 + b.ops;
    var tmp := TempPath(path, random);
    var failure := TempAndRename(fs, path, tmp, data, mode, faults);
    ghost var r := TempSpec(b.entries, fs.broken, fs.umask, path, data, mode, faults, tmp);
    assert fs.log == log0 + b.ops + r.ops;
    if failure.Some? {
      return Failed(failure.value);
    }
    return Applied;
  }

  // -----------------------------------------------------------------------
  // Properties of the stages

  /** The temp file's write, chmod, rename and cleanup. */
  lemma ReplaceFacts(t: Tree, path: Path, tmp: Path, data: string, mode: bv9, faults: Faults)
    requires tmp in t && t[tmp].kind == Regular
    ensures var r := ReplaceSpec(t, path, tmp, data, mode, faults);
      && (r.result.None? <==>
            !faults.tempWrite && !faults.tempChmod && !faults.tempSync && !faults.tempClose && !faults.rename
            && !(path in t && t[path].kind == Directory))
      && (r.result.Some? ==> r.result.value in {WriteStage, ChmodStage, SyncStage, CloseStage, RenameStage})
      && (r.result.None? ==> r.entries == (t - {tmp})[path := t[tmp].(content := data, perm := mode)])
      && (r.result.Some? && !faults.tempRemove ==> r.entries == t - {tmp})
      && (r.result.Some? && faults.tempRemove ==>
            tmp in r.entries && r.entries[tmp].kind == Regular && forall q | q != tmp :: Agree(r.entries, t, q))
      && (forall k | 0 <= k < |r.ops| ::
            if r.ops[k].Renamed? then r.ops[k] == Renamed(tmp, path) && k == |r.ops| - 1 && r.result.None?
            else r.ops[k].path == tmp)
  {
  }

  /** How the temp stage ends. */
  lemma TempOutcome(t: Tree, broken: set<Path>, umask: bv9, path: Path, data: string, mode: bv9, faults: Faults, tmp: Path)
    ensures var r := TempSpec(t, broken, umask, path, data, mode, faults, tmp);
      && (r.result == Some(TempStage) <==> faults.tempCreate || !Free(t, broken, tmp))
      && (r.result.None? <==>
            && !faults.tempCreate && Free(t, broken, tmp)
            && !faults.tempWrite && !faults.tempChmod && !faults.tempSync && !faults.tempClose && !faults.rename
            && !(path in t && t[path].kind == Directory))
      && (r.result.Some? ==> r.result.value in {TempStage, WriteStage, ChmodStage, SyncStage, CloseStage, RenameStage})
  {
    if !faults.tempCreate && Free(t, broken, tmp) {
      ReplaceFacts(t[tmp := Entry(Regular, "", TempPerm & !umask, true)], path, tmp, data, mode, faults);
    }
  }

  /** The tree the temp stage leaves: the target replaced, or the tree as
      it was, or that tree plus a leftover temp file whose removal failed. */
  lemma TempEntries(t: Tree, broken: set<Path>, umask: bv9, path: Path, data: string, mode: bv9, faults: Faults, tmp: Path)
    ensures var r := TempSpec(t, broken, umask, path, data, mode, faults, tmp);
      && (r.result == Some(TempStage) ==> r.entries == t && r.ops == [])
      && (r.result.None? ==> r.entries == t[path := Entry(Regular, data, mode, true)])
      && (r.result.Some? && !faults.tempRemove ==> r.entries == t)
      && (r.result.Some? && r.result.value != TempStage && faults.tempRemove ==>
            tmp !in t && tmp in r.entries && forall q | q != tmp :: Agree(r.entries, t, q))
  {
    if !faults.tempCreate && Free(t, broken, tmp) {
      var created := t[tmp := Entry(Regular, "", TempPerm & !umask, true)];
      ReplaceFacts(created, path, tmp, data, mode, faults);
      var rr := ReplaceSpec(created, path, tmp, data, mode, faults);
      assert TempSpec(t, broken, umask, path, data, mode, faults, tmp).entries == rr.entries;
      assert created - {tmp} == t;
      if rr.result.Some? && faults.tempRemove {
        forall q | q != tmp
          ensures Agree(rr.entries, t, q)
        {
          assert Agree(rr.entries, created, q);
        }
      }
    }
  }

  /** The calls of the temp stage: all on the temp file, the create first
      and a rename, if any, last and only on success. */
  lemma TempCalls(t: Tree, broken: set<Path>, umask: bv9, path: Path, data: string, mode: bv9, faults: Faults, tmp: Path)
    ensures var r := TempSpec(t, broken, umask, path, data, mode, faults, tmp);
      && (r.ops != [] ==> r.ops[0] == Created(tmp))
      && (forall k | 0 <= k < |r.ops| ::
            if r.ops[k].Renamed? then r.ops[k] == Renamed(tmp, path) && k == |r.ops| - 1 && r.result.None?
            else r.ops[k].path == tmp)
  {
    if !faults.tempCreate && Free(t, broken, tmp) {
      var created := t[tmp := Entry(Regular, "", TempPerm & !umask, true)];
      ReplaceFacts(created, path, tmp, data, mode, faults);
      var rr := ReplaceSpec(created, path, tmp, data, mode, faults);
      var r := TempSpec(t, broken, umask, path, data, mode, faults, tmp);
      assert r.ops == [Created(tmp)] + rr.ops;
      forall k | 0 <= k < |r.ops|
        ensures if r.ops[k].Renamed? then r.ops[k] == Renamed(tmp, path) && k == |r.ops| - 1 && r.result.None?
                else r.ops[k].path == tmp
      {
        if k > 0 {
          assert r.ops[k] == rr.ops[k - 1];
        }
      }
    }
  }

  /** Which backup stage fails, if any. */
  lemma BackupOutcome(t: Tree, broken: set<Path>, umask: bv9, path: Path, mode: bv9, suffix: string, faults: Faults)
    ensures var bp := FirstFreeBackup(t, broken, Dir(path), Base(path), suffix, 0);
      var s := Stat(t, broken, path);
      var b := BackupSpec(t, broken, umask, path, mode, suffix, faults);
      && (b.result == Some(BackupNameStage) <==> bp.None?)
      && (b.result.Some? ==> b.result.value in {BackupNameStage, BackupStage})
      && (b.result.None? <==>
            && bp.Some? && s.Found? && s.entry.readable && s.entry.kind == Regular
            && !faults.backupCreate && !faults.backupCopy && !faults.backupSync)
  {
    var bp := FirstFreeBackup(t, broken, Dir(path), Base(path), suffix, 0);
    if bp.Some? {
      CopyOutcome(t, broken, umask, path, bp.value, mode, faults);
    }
  }

  /** The tree and the calls of the backup stage: only the chosen name
      changes, to a full copy on success. */
  lemma BackupEntries(t: Tree, broken: set<Path>, umask: bv9, path: Path, mode: bv9, suffix: string, faults: Faults)
    ensures var bp := FirstFreeBackup(t, broken, Dir(path), Base(path), suffix, 0);
      var s := Stat(t, broken, path);
      var b := BackupSpec(t, broken, umask, path, mode, suffix, faults);
      && (b.result.None? ==> bp.Some? && s.Found? && b.entries == t[bp.value := Entry(Regular, s.entry.content, mode & !umask, true)])
      && (b.result.Some? ==>
            || b.entries == t
            || (bp.Some? && s.Found? && b.entries == t[bp.value := Entry(Regular, CopiedContent(s.entry, faults), mode & !umask, true)]))
      && (forall q | Some(q) != bp :: Agree(b.entries, t, q))
      && (b.ops == [] || (bp.Some? && b.ops == [Created(bp.value), Wrote(bp.value)]))
  {
    var bp := FirstFreeBackup(t, broken, Dir(path), Base(path), suffix, 0);
    if bp.Some? {
      CopyFacts(t, broken, umask, path, bp.value, mode, faults);
    }
  }

  /** The tree and the calls of one copy into a free name. */
  lemma CopyFacts(t: Tree, broken: set<Path>, umask: bv9, src: Path, dst: Path, mode: bv9, faults: Faults)
    requires Free(t, broken, dst)
    ensures var s := Stat(t, broken, src);
      var c := CopySpec(t, broken, umask, src, dst, mode, faults);
      && (c.result ==> s.Found? && c.entries == t[dst := Entry(Regular, s.entry.content, mode & !umask, true)])
      && (c.entries == t || (s.Found? && c.entries == t[dst := Entry(Regular, CopiedContent(s.entry, faults), mode & !umask, true)]))
      && (forall q | q != dst :: Agree(c.entries, t, q))
      && (c.ops == [] || c.ops == [Created(dst), Wrote(dst)])
  {
    var s := Stat(t, broken, src);
    if s.Found? && s.entry.readable && !faults.backupCreate {
      var created := t[dst := Entry(Regular, "", mode & !umask, true)];
      var e := Entry(Regular, CopiedContent(s.entry, faults), mode & !umask, true);
      assert created[dst := created[dst].(content := CopiedContent(s.entry, faults))] == t[dst := e];
    }
  }

  // -----------------------------------------------------------------------
  // Properties of WriteAtomic

  /** A target that cannot be stat'ed fails at the first step, and neither
      that nor running out of backup names touches anything. */
  lemma WriteStatFailure(t: Tree, broken: set<Path>, umask: bv9, path: Path, data: string, opts: Options, faults: Faults, tmp: Path)
    ensures var a := WriteSpec(t, broken, umask, path, data, opts, faults, tmp);
      && (a.outcome == Failed(StatStage) <==> !Stat(t, broken, path).Found?)
      && (a.outcome in {Failed(StatStage), Failed(BackupNameStage)} ==> a.entries == t && a.backupOps == [] && a.tempOps == [])
  {
    var st := Stat(t, broken, path);
    if st.Found? {
      BackupOutcome(t, broken, umask, path, st.entry.perm, Suffix(opts), faults);
      var b := if opts.backup then BackupSpec(t, broken, umask, path, st.entry.perm, Suffix(opts), faults) else Effect(None, t, []);
      TempOutcome(b.entries, broken, umask, path, data, st.entry.perm, faults, tmp);
    }
  }

  /** With backups on, the backup is the first free candidate name, and
      only a missing free name fails the name step; with backups off
      nothing is tried. */
  lemma WriteBackupChoice(t: Tree, broken: set<Path>, umask: bv9, path: Path, data: string, opts: Options, faults: Faults, tmp: Path)
    ensures var a := WriteSpec(t, broken, umask, path, data, opts, faults, tmp);
      && (Stat(t, broken, path).Found? && opts.backup ==>
            && a.backup == FirstFreeBackup(t, broken, Dir(path), Base(path), Suffix(opts), 0)
            && (a.outcome == Failed(BackupNameStage) <==> a.backup.None?))
      && (a.backup.Some? ==> opts.backup && Free(t, broken, a.backup.value))
      && (!opts.backup ==>
            a.backup.None? && a.backupOps == [] && a.outcome != Failed(BackupNameStage) && a.outcome != Failed(BackupStage))
  {
    var st := Stat(t, broken, path);
    if st.Found? {
      BackupOutcome(t, broken, umask, path, st.entry.perm, Suffix(opts), faults);
      var b := if opts.backup then BackupSpec(t, broken, umask, path, st.entry.perm, Suffix(opts), faults) else Effect(None, t, []);
      TempOutcome(b.entries, broken, umask, path, data, st.entry.perm, faults, tmp);
    }
  }

  /** The temp stage after a successful backup (or none), with the backup
      name free before it started. */
  lemma AfterBackup(t: Tree, broken: set<Path>, umask: bv9, path: Path, opts: Options, faults: Faults)
    requires Stat(t, broken, path).Found?
    ensures var st := Stat(t, broken, path);
      var bp := if opts.backup then FirstFreeBackup(t, broken, Dir(path), Base(path), Suffix(opts), 0) else None;
      var b := if opts.backup then BackupSpec(t, broken, umask, path, st.entry.perm, Suffix(opts), faults) else Effect(None, t, []);
      && path in t
      && (bp.Some? ==> bp.value !in t && bp.value != path)
      && (b.result.None? ==> b.entries == if bp.Some? then t[bp.value := Copy(st.entry, umask)] else t)
      && (b.result.None? && bp.Some? ==> Holds(b.entries, bp.value, Copy(st.entry, umask)))
      && (forall q | Some(q) != bp :: Agree(b.entries, t, q))
  {
    BackupEntries(t, broken, umask, path, Stat(t, broken, path).entry.perm, Suffix(opts), faults);
  }

  /** The temp stage leaves every existing entry but the target alone. */
  lemma TempKeeps(t: Tree, broken: set<Path>, umask: bv9, path: Path, data: string, mode: bv9, faults: Faults, tmp: Path)
    ensures var r := TempSpec(t, broken, umask, path, data, mode, faults, tmp);
      forall q | q in t && q != path :: Holds(r.entries, q, t[q])
  {
    var r := TempSpec(t, broken, umask, path, data, mode, faults, tmp);
    TempOutcome(t, broken, umask, path, data, mode, faults, tmp);
    TempEntries(t, broken, umask, path, data, mode, faults, tmp);
    forall q | q in t && q != path
      ensures Holds(r.entries, q, t[q])
    {
      if r.result.Some? && r.result.value != TempStage && faults.tempRemove {
        assert q != tmp;
        assert Agree(r.entries, t, q);
      }
    }
  }

  /** A backup that was written in full survives everything after it. */
  lemma WriteBackupHolds(t: Tree, broken: set<Path>, umask: bv9, path: Path, data: string, opts: Options, faults: Faults, tmp: Path)
    ensures var a := WriteSpec(t, broken, umask, path, data, opts, faults, tmp);
      a.backup.Some? && a.outcome != Failed(BackupStage) ==>
        Stat(t, broken, path).Found? && Holds(a.entries, a.backup.value, Copy(Stat(t, broken, path).entry, umask))
  {
    var a := WriteSpec(t, broken, umask, path, data, opts, faults, tmp);
    var st := Stat(t, broken, path);
    if a.backup.Some? && a.outcome != Failed(BackupStage) {
      var mode := st.entry.perm;
      AfterBackup(t, broken, umask, path, opts, faults);
      BackupOutcome(t, broken, umask, path, mode, Suffix(opts), faults);
      var b := BackupSpec(t, broken, umask, path, mode, Suffix(opts), faults);
      assert b.result.None?;
      TempKeeps(b.entries, broken, umask, path, data, mode, faults, tmp);
    }
  }

  /** The target changes only through the final rename: a failed write
      leaves it exactly as it was. */
  lemma WriteTargetIntact(t: Tree, broken: set<Path>, umask: bv9, path: Path, data: string, opts: Options, faults: Faults, tmp: Path)
    ensures var a := WriteSpec(t, broken, umask, path, data, opts, faults, tmp);
      a.outcome != Applied && path in t ==> Holds(a.entries, path, t[path])
  {
    var a := WriteSpec(t, broken, umask, path, data, opts, faults, tmp);
    var st := Stat(t, broken, path);
    if st.Found? && a.outcome != Applied {
      var mode := st.entry.perm;
      AfterBackup(t, broken, umask, path, opts, faults);
      var b := if opts.backup then BackupSpec(t, broken, umask, path, mode, Suffix(opts), faults) else Effect(None, t, []);
      var r := TempSpec(b.entries, broken, umask, path, data, mode, faults, tmp);
      if b.result.Some? {
        BackupEntries(t, broken, umask, path, mode, Suffix(opts), faults);
        assert Agree(b.entries, t, path);
      } else {
        TempOutcome(b.entries, broken, umask, path, data, mode, faults, tmp);
        TempEntries(b.entries, broken, umask, path, data, mode, faults, tmp);
        if r.result.Some? && r.result.value != TempStage && faults.tempRemove {
          assert path != tmp;
          assert Agree(r.entries, b.entries, path);
        }
      }
    }
  }

  /** The write succeeds exactly when the target resolves, the backup (if
      asked for) is made in full, the temp name is free, no call on the
      temp file fails and the target is not a directory. */
  lemma WriteApplied(t: Tree, broken: set<Path>, umask: bv9, path: Path, data: string, opts: Options, faults: Faults, tmp: Path)
    ensures var a := WriteSpec(t, broken, umask, path, data, opts, faults, tmp);
      var st := Stat(t, broken, path);
      a.outcome == Applied <==>
        && st.Found? && path in t
        && (opts.backup ==>
              && FirstFreeBackup(t, broken, Dir(path), Base(path), Suffix(opts), 0).Some?
              && st.entry.readable && st.entry.kind == Regular
              && !faults.backupCreate && !faults.backupCopy && !faults.backupSync)
        && !faults.tempCreate && Free(t, broken, tmp) && a.backup != Some(tmp)
        && !faults.tempWrite && !faults.tempChmod && !faults.tempSync && !faults.tempClose && !faults.rename
        && t[path].kind != Directory
  {
    var st := Stat(t, broken, path);
    if st.Found? {
      var mode := st.entry.perm;
      AfterBackup(t, broken, umask, path, opts, faults);
      BackupOutcome(t, broken, umask, path, mode, Suffix(opts), faults);
      var b := if opts.backup then BackupSpec(t, broken, umask, path, mode, Suffix(opts), faults) else Effect(None, t, []);
      TempOutcome(b.entries, broken, umask, path, data, mode, faults, tmp);
      if b.result.None? {
        var bp := if opts.backup then FirstFreeBackup(t, broken, Dir(path), Base(path), Suffix(opts), 0) else None;
        assert Free(b.entries, broken, tmp) <==> Free(t, broken, tmp) && bp != Some(tmp) by {
          if bp.Some? && bp.value != tmp {
            assert Agree(b.entries, t, tmp);
          }
        }
        assert path in b.entries && b.entries[path] == t[path];
      }
    }
  }

  /** After a successful write the target holds `data` as a regular file
      with the permission bits it had. */
  lemma WriteAppliedContent(t: Tree, broken: set<Path>, umask: bv9, path: Path, data: string, opts: Options, faults: Faults, tmp: Path)
    ensures var a := WriteSpec(t, broken, umask, path, data, opts, faults, tmp);
      a.outcome == Applied ==> Holds(a.entries, path, Entry(Regular, data, Stat(t, broken, path).entry.perm, true))
  {
    var st := Stat(t, broken, path);
    if st.Found? {
      var mode := st.entry.perm;
      var b := if opts.backup then BackupSpec(t, broken, umask, path, mode, Suffix(opts), faults) else Effect(None, t, []);
      if b.result.None? {
        TempEntries(b.entries, broken, umask, path, data, mode, faults, tmp);
      }
    }
  }

  /** Every entry that existed, other than the target, is kept. */
  lemma WriteKeepsOthers(t: Tree, broken: set<Path>, umask: bv9, path: Path, data: string, opts: Options, faults: Faults, tmp: Path)
    ensures var a := WriteSpec(t, broken, umask, path, data, opts, faults, tmp);
      forall q | q in t && q != path :: Holds(a.entries, q, t[q])
  {
    var a := WriteSpec(t, broken, umask, path, data, opts, faults, tmp);
    var st := Stat(t, broken, path);
    if st.Found? {
      var mode := st.entry.perm;
      var bp := if opts.backup then FirstFreeBackup(t, broken, Dir(path), Base(path), Suffix(opts), 0) else None;
      var b := if opts.backup then BackupSpec(t, broken, umask, path, mode, Suffix(opts), faults) else Effect(None, t, []);
      AfterBackup(t, broken, umask, path, opts, faults);
      if b.result.None? {
        TempKeeps(b.entries, broken, umask, path, data, mode, faults, tmp);
        forall q | q in t && q != path
          ensures Holds(a.entries, q, t[q])
        {
          assert Some(q) != bp;
          assert Agree(b.entries, t, q);
        }
      } else {
        forall q | q in t && q != path
          ensures Holds(a.entries, q, t[q])
        {
          assert Some(q) != bp;
          assert Agree(b.entries, t, q);
        }
      }
    }
  }

  /** Nothing but the target, the backup name and the temp name changes. */
  lemma WriteFrame(t: Tree, broken: set<Path>, umask: bv9, path: Path, data: string, opts: Options, faults: Faults, tmp: Path)
    ensures var a := WriteSpec(t, broken, umask, path, data, opts, faults, tmp);
      forall q | q != path && q != tmp && Some(q) != a.backup :: Agree(a.entries, t, q)
  {
    var a := WriteSpec(t, broken, umask, path, data, opts, faults, tmp);
    var st := Stat(t, broken, path);
    if st.Found? {
      var mode := st.entry.perm;
      AfterBackup(t, broken, umask, path, opts, faults);
      var b := if opts.backup then BackupSpec(t, broken, umask, path, mode, Suffix(opts), faults) else Effect(None, t, []);
      if b.result.None? {
        TempOutcome(b.entries, broken, umask, path, data, mode, faults, tmp);
        TempEntries(b.entries, broken, umask, path, data, mode, faults, tmp);
        forall q | q != path && q != tmp && Some(q) != a.backup
          ensures Agree(a.entries, t, q)
        {
          assert Agree(b.entries, t, q);
        }
      } else {
        BackupEntries(t, broken, umask, path, mode, Suffix(opts), faults);
      }
    }
  }

  /** A temp file that was not there before is left behind only when its
      removal failed after a later step failed. */
  lemma WriteTempCleanup(t: Tree, broken: set<Path>, umask: bv9, path: Path, data: string, opts: Options, faults: Faults, tmp: Path)
    ensures var a := WriteSpec(t, broken, umask, path, data, opts, faults, tmp);
      tmp in a.entries && tmp !in t && a.backup != Some(tmp) ==> faults.tempRemove && AfterTempCreated(a.outcome)
  {
    var a := WriteSpec(t, broken, umask, path, data, opts, faults, tmp);
    var st := Stat(t, broken, path);
    if st.Found? && tmp in a.entries && tmp !in t && a.backup != Some(tmp) {
      var mode := st.entry.perm;
      AfterBackup(t, broken, umask, path, opts, faults);
      var b := if opts.backup then BackupSpec(t, broken, umask, path, mode, Suffix(opts), faults) else Effect(None, t, []);
      assert Agree(b.entries, t, tmp);
      if b.result.None? {
        TempOutcome(b.entries, broken, umask, path, data, mode, faults, tmp);
        TempEntries(b.entries, broken, umask, path, data, mode, faults, tmp);
        assert tmp != path;
      }
    }
  }

  /** The calls, in order: create and fill the backup, then create the temp
      file and work on it alone, with the rename over the target last and
      only on success. */
  lemma WriteCallOrder(t: Tree, broken: set<Path>, umask: bv9, path: Path, data: string, opts: Options, faults: Faults, tmp: Path)
    ensures var a := WriteSpec(t, broken, umask, path, data, opts, faults, tmp);
      a.backupOps == [] || (a.backup.Some? && a.backupOps == [Created(a.backup.value), Wrote(a.backup.value)])
    ensures var a := WriteSpec(t, broken, umask, path, data, opts, faults, tmp);
      a.tempOps != [] ==> a.tempOps[0] == Created(tmp)
    ensures var a := WriteSpec(t, broken, umask, path, data, opts, faults, tmp);
      forall k | 0 <= k < |a.tempOps| ::
        if a.tempOps[k].Renamed? then a.tempOps[k] == Renamed(tmp, path) && k == |a.tempOps| - 1 && a.outcome == Applied
        else a.tempOps[k].path == tmp
  {
    var st := Stat(t, broken, path);
    if st.Found? {
      var mode := st.entry.perm;
      BackupEntries(t, broken, umask, path, mode, Suffix(opts), faults);
      var b := if opts.backup then BackupSpec(t, broken, umask, path, mode, Suffix(opts), faults) else Effect(None, t, []);
      TempCalls(b.entries, broken, umask, path, data, mode, faults, tmp);
    }
  }

  // -----------------------------------------------------------------------
  // The behaviours the package's tests check, for any directory

  const NoFaults := Faults(false, false, 0, false, false, false, 0, false, false, false, false, false)

  /** A plain write replaces the content and keeps the mode. */
  lemma ExampleBasic(t: Tree, broken: set<Path>, umask: bv9, path: Path, data: string, tmp: Path)
    requires path in t && path !in broken && t[path].kind == Regular
    requires Free(t, broken, tmp)
    ensures var a := WriteSpec(t, broken, umask, path, data, Options(false, ""), NoFaults, tmp);
      a.outcome == Applied && Holds(a.entries, path, Entry(Regular, data, t[path].perm, true))
  {
    WriteApplied(t, broken, umask, path, data, Options(false, ""), NoFaults, tmp);
    WriteAppliedContent(t, broken, umask, path, data, Options(false, ""), NoFaults, tmp);
  }

  /** With backups on, `base.bak` receives the original content. */
  lemma ExampleBackup(t: Tree, broken: set<Path>, umask: bv9, path: Path, data: string, tmp: Path)
    requires path in t && path !in broken && t[path].kind == Regular && t[path].readable
    requires Free(t, broken, Paths.Join(Dir(path), Base(path) + ".bak"))
    requires Free(t, broken, tmp) && tmp != Paths.Join(Dir(path), Base(path) + ".bak")
    ensures var a := WriteSpec(t, broken, umask, path, data, Options(true, ""), NoFaults, tmp);
      && a.outcome == Applied
      && Holds(a.entries, path, Entry(Regular, data, t[path].perm, true))
      && a.backup == Some(Paths.Join(Dir(path), Base(path) + ".bak"))
      && Holds(a.entries, a.backup.value, Copy(t[path], umask))
  {
    var opts := Options(true, "");
    assert BackupCandidate(Dir(path), Base(path), ".bak", 0) == Paths.Join(Dir(path), Base(path) + ".bak");
    WriteApplied(t, broken, umask, path, data, opts, NoFaults, tmp);
    WriteAppliedContent(t, broken, umask, path, data, opts, NoFaults, tmp);
    WriteBackupChoice(t, broken, umask, path, data, opts, NoFaults, tmp);
    WriteBackupHolds(t, broken, umask, path, data, opts, NoFaults, tmp);
  }

  /** A free first candidate is the name the backup gets. */
  lemma BackupName(t: Tree, broken: set<Path>, dir: Path, base: string, suffix: string)
    requires Free(t, broken, Paths.Join(dir, base + suffix))
    ensures FirstFreeBackup(t, broken, dir, base, suffix, 0) == Some(Paths.Join(dir, base + suffix))
  {
    assert BackupCandidate(dir, base, suffix, 0) == Paths.Join(dir, base + suffix);
  }

  /** With backups on and no faults, a readable regular file whose backup
      and temp names are free and distinct is written. */
  lemma BackupWriteApplies(t: Tree, broken: set<Path>, umask: bv9, path: Path, data: string, tmp: Path)
    requires path in t && path !in broken && t[path].kind == Regular && t[path].readable
    requires FirstFreeBackup(t, broken, Dir(path), Base(path), DefaultSuffix, 0).Some?
    requires Free(t, broken, tmp) && FirstFreeBackup(t, broken, Dir(path), Base(path), DefaultSuffix, 0) != Some(tmp)
    ensures WriteSpec(t, broken, umask, path, data, Options(true, ""), NoFaults, tmp).outcome == Applied
  {
    WriteApplied(t, broken, umask, path, data, Options(true, ""), NoFaults, tmp);
    WriteBackupChoice(t, broken, umask, path, data, Options(true, ""), NoFaults, tmp);
  }

  /** When `base.bak` exists, the backup goes to `base.bak.1`. */
  lemma ExampleBackupUnique(t: Tree, broken: set<Path>, umask: bv9, path: Path, data: string, tmp: Path)
    requires Stat(t, broken, path).Found?
    requires Paths.Join(Dir(path), Base(path) + ".bak") in t
    requires Free(t, broken, Paths.Join(Dir(path), Base(path) + ".bak.1"))
    ensures WriteSpec(t, broken, umask, path, data, Options(true, ""), NoFaults, tmp).backup
         == Some(Paths.Join(Dir(path), Base(path) + ".bak.1"))
  {
    var dir, base := Dir(path), Base(path);
    DecimalOne();
    assert base + ".bak" + "." + Decimal(1) == base + ".bak.1";
    assert Taken(t, broken, dir, base, ".bak", 0);
    assert FirstFreeBackup(t, broken, dir, base, ".bak", 0) == FirstFreeBackup(t, broken, dir, base, ".bak", 1);
    WriteBackupChoice(t, broken, umask, path, data, Options(true, ""), NoFaults, tmp);
  }

  /** A missing file is a stat failure. */
  lemma ExampleNoSuchFile(t: Tree, broken: set<Path>, umask: bv9, path: Path, data: string, tmp: Path)
    requires path !in t && path !in broken
    ensures WriteSpec(t, broken, umask, path, data, Options(false, ""), NoFaults, tmp).outcome == Failed(StatStage)
  {
  }
}
