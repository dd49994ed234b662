/** The command (internal/cli): the checks on an already parsed
    configuration, then discovery from ".", then for each path in sorted
    order substitution, preview and, unless this is a dry run, the atomic
    write, folded into an exit code. Output text is not modelled; which
    branch each file takes is, as an `Event`. The fault injections and
    temp names of the write step are parameters, one per path. */
module Cli {
  import opened Wrappers
  import opened Strings
  import opened Paths
  import opened Fs
  import opened Processor
  import Diff
  import Apply
  import opened Discovery

  /** The parsed flags. */
  datatype Config = Config(
    pattern: string,
    replace: string,
    regex: bool,
    literal: bool,
    glob: string,
    ext: string,
    files: seq<string>,
    yes: bool,
    interactive: bool,
    backup: bool,
    dryRun: bool,
    noColor: bool,
    context: int,
    strictEol: bool)

  datatype ConfigError =
    | MissingPatternOrReplace
    | RegexUnsupported
    | YesWithInteractive
    | NoFileSelector

  /** The checks parseArgs makes after parsing, first failure first. */
  function Validate(cfg: Config): (r: Option<ConfigError>)
    ensures r == Some(MissingPatternOrReplace) <==> cfg.pattern == "" || cfg.replace == ""
    ensures r == Some(RegexUnsupported) <==> cfg.pattern != "" && cfg.replace != "" && cfg.regex
    ensures r == Some(YesWithInteractive) <==>
      cfg.pattern != "" && cfg.replace != "" && !cfg.regex && cfg.yes && cfg.interactive
    ensures r == Some(NoFileSelector) <==>
      cfg.pattern != "" && cfg.replace != "" && !cfg.regex && !(cfg.yes && cfg.interactive)
      && cfg.glob == "" && cfg.ext == "" && |cfg.files| == 0
    ensures r.None? ==> cfg.pattern != "" && cfg.replace != "" && !cfg.regex
  {
    if cfg.pattern == "" || cfg.replace == "" then Some(MissingPatternOrReplace)
    else if cfg.regex then Some(RegexUnsupported)
    else if cfg.yes && cfg.interactive then Some(YesWithInteractive)
    else if cfg.glob == "" && cfg.ext == "" && |cfg.files| == 0 then Some(NoFileSelector)
    else None
  }

  /** Run asks discovery for these files, with no excludes. */
  function SelectorOf(cfg: Config): Selector {
    Selector(cfg.glob, cfg.ext, cfg.files, [])
  }

  /** Which branch of the loop one file takes. */
  datatype Event =
    | ProcessFailed
    | Unchanged
    | NotMeaningful
    | Previewed(preview: string)
    | Written(data: string)
    | WriteFailed(stage: Apply.Stage)

  /** The branch sets hadErrors. */
  predicate IsError(e: Event) {
    e.ProcessFailed? || e.WriteFailed?
  }

  /** The branch sets hadChanges: every file the processor changed, even
      when the diff then finds nothing worth showing. */
  predicate IsChange(e: Event) {
    !e.ProcessFailed? && !e.Unchanged?
  }

  /** The write step was invoked. */
  predicate WroteTo(e: Event) {
    e.Written? || e.WriteFailed?
  }

  predicate AnyError(events: seq<Event>) {
    exists i | 0 <= i < |events| :: IsError(events[i])
  }

  predicate AnyChange(events: seq<Event>) {
    exists i | 0 <= i < |events| :: IsChange(events[i])
  }

  /** The options the write step gets: only the backup flag. */
  function WriteOptions(cfg: Config): Apply.Options {
    Apply.Options(cfg.backup, "")
  }

  /** One iteration of the loop on the tree `t`: the branch taken and the
      tree afterwards. */
  function FileStep(t: Tree, broken: set<Path>, umask: bv9, cfg: Config, p: Path, faults: Apply.Faults, name: string): (Event, Tree) {
    var res := SubstituteLiteral(ReadFile(t, broken, p), cfg.pattern, cfg.replace);
    if res.Failed? then (ProcessFailed, t)
    else if !res.result.changed then (Unchanged, t)
    else
      var (preview, changed) := Diff.Rendered(res.result.before, res.result.after, !cfg.noColor, cfg.strictEol);
      if !changed then (NotMeaningful, t)
      else if cfg.dryRun then (Previewed(preview), t)
      else
        var a := Apply.WriteSpec(t, broken, umask, p, res.result.after, WriteOptions(cfg), faults, Apply.TempPath(p, name));
        (if a.outcome.Applied? then Written(res.result.after) else WriteFailed(a.outcome.stage), a.entries)
  }

  datatype Progress = Progress(entries: Tree, events: seq<Event>)

  /** The loop over `paths`, in order. */
  function Steps(t: Tree, broken: set<Path>, umask: bv9, cfg: Config, paths: seq<Path>,
                 faults: Path -> Apply.Faults, names: Path -> string): Progress
  {
    if paths == [] then Progress(t, [])
    else
      var pr := Steps(t, broken, umask, cfg, paths[..|paths| - 1], faults, names);
      var p := paths[|paths| - 1];
      var (e, u) := FileStep(pr.entries, broken, umask, cfg, p, faults(p), names(p));
      Progress(u, pr.events + [e])
  }

  /** The exit code: 2 after any error, else 1 after any change, else 0. */
  function ExitCode(events: seq<Event>, discoveryFailed: bool): (code: int)
    ensures code == 2 <==> discoveryFailed || AnyError(events)
    ensures code == 1 <==> !discoveryFailed && !AnyError(events) && AnyChange(events)
    ensures code == 0 <==> !discoveryFailed && !AnyError(events) && !AnyChange(events)
  {
    if discoveryFailed || AnyError(events) then 2
    else if AnyChange(events) then 1
    else 0
  }

  /** Everything after a successful validation, given discovery's answer:
      the exit code and the final tree. */
  function Finish(t: Tree, broken: set<Path>, umask: bv9, cfg: Config, d: Discovery,
                  faults: Path -> Apply.Faults, names: Path -> string): (int, Tree)
  {
    if d.Fatal? then (2, t)
    else if |d.issues| > 0 && |d.paths| == 0 then (2, t)
    else
      var pr := Steps(t, broken, umask, cfg, SortStrings(d.paths), faults, names);
      (ExitCode(pr.events, |d.issues| > 0), pr.entries)
  }

  // -----------------------------------------------------------------------
  // The imperative loop

  /** The loop body for one path. */
  method ProcessFile(fs: FileSystem, cfg: Config, p: Path, faults: Apply.Faults, name: string) returns (e: Event)
    modifies fs
    ensures (e, fs.entries) == FileStep(old(fs.entries), fs.broken, fs.umask, cfg, p, faults, name)
  {
    var res := SubstituteLiteral(ReadFile(fs.entries, fs.broken, p), cfg.pattern, cfg.replace);
    if res.Failed? {
      return ProcessFailed;
    }
    if !res.result.changed {
      return Unchanged;
    }
    var opts := Diff.Options(!cfg.noColor, cfg.context, cfg.strictEol);
    var preview, changed := Diff.Diff(res.result.before, res.result.after, opts);
    if !changed {
      return NotMeaningful;
    }
    if cfg.dryRun {
      return Previewed(preview);
    }
    var outcome := Apply.WriteAtomic(fs, p, res.result.after, WriteOptions(cfg), faults, name);
    if outcome.Failed? {
      return WriteFailed(outcome.stage);
    }
    return Written(res.result.after);
  }

  /** The loop over the sorted paths, folding each file's branch into the
      two flags. */
  method ProcessAll(fs: FileSystem, cfg: Config, paths: seq<Path>, faults: Path -> Apply.Faults, names: Path -> string)
    returns (hadErrors: bool, hadChanges: bool)
    modifies fs
    ensures var pr := Steps(old(fs.entries), fs.broken, fs.umask, cfg, paths, faults, names);
      && fs.entries == pr.entries
      && (hadErrors <==> AnyError(pr.events))
      && (hadChanges <==> AnyChange(pr.events))
  {
    hadErrors, hadChanges := false, false;
    ghost var t0 := fs.entries;
    ghost var events: seq<Event> := [];
    for i := 0 to |paths|
      invariant Steps(t0, fs.broken, fs.umask, cfg, paths[..i], faults, names) == Progress(fs.entries, events)
      invariant hadErrors <==> AnyError(events)
      invariant hadChanges <==> AnyChange(events)
    {
      assert paths[..i + 1][..i] == paths[..i];
      var p := paths[i];
      var e := ProcessFile(fs, cfg, p, faults(p), names(p));
      AppendEvent(events, e);
      events := events + [e];
      if IsError(e) {
        hadErrors := true;
      }
      if IsChange(e) {
        hadChanges := true;
      }
    }
    assert paths[..|paths|] == paths;
  }

  lemma AppendEvent(events: seq<Event>, e: Event)
    ensures AnyError(events + [e]) <==> AnyError(events) || IsError(e)
    ensures AnyChange(events + [e]) <==> AnyChange(events) || IsChange(e)
  {
    var es := events + [e];
    assert es[|events|] == e;
    forall i | 0 <= i < |events| ensures es[i] == events[i] { }
  }

  /** Run, after flag parsing. `discovered` is what discovery answered,
      `None` when validation failed first. */
  method Run(fs: FileSystem, m: Matcher, cwd: Option<Path>, cfg: Config, faults: Path -> Apply.Faults, names: Path -> string)
    returns (code: int, ghost discovered: Option<Discovery>)
    modifies fs
    ensures Validate(cfg).Some? ==> code == 2 && discovered.None? && fs.entries == old(fs.entries)
    ensures Validate(cfg).None? ==>
      && discovered.Some?
      && Describes(old(fs.entries), fs.broken, m, cwd, ".", SelectorOf(cfg), discovered.value)
      && (code, fs.entries) == Finish(old(fs.entries), fs.broken, fs.umask, cfg, discovered.value, faults, names)
  {
    discovered := None;
    if Validate(cfg).Some? {
      return 2, discovered;
    }
    var d := Discover(fs.entries, fs.broken, m, cwd, ".", SelectorOf(cfg));
    discovered := Some(d);
    if d.Fatal? || (|d.issues| > 0 && |d.paths| == 0) {
      return 2, discovered;
    }
    var paths := SortStrings(d.paths);
    var hadErrors, hadChanges := ProcessAll(fs, cfg, paths, faults, names);
    if |d.issues| > 0 {
      hadErrors := true;
    }
    if hadErrors {
      code := 2;
    } else if hadChanges {
      code := 1;
    } else {
      code := 0;
    }
  }

  // -----------------------------------------------------------------------
  // Properties

  /** One event per path. */
  lemma {:induction false} StepsLength(t: Tree, broken: set<Path>, umask: bv9, cfg: Config, paths: seq<Path>,
                                        faults: Path -> Apply.Faults, names: Path -> string)
    ensures |Steps(t, broken, umask, cfg, paths, faults, names).events| == |paths|
  {
    if paths != [] {
      StepsLength(t, broken, umask, cfg, paths[..|paths| - 1], faults, names);
    }
  }

  /** The write step is invoked for a file exactly when this is no dry
      run, the processor changed the content and the diff shows the change;
      otherwise the tree is left as it was. */
  lemma FileStepWrites(t: Tree, broken: set<Path>, umask: bv9, cfg: Config, p: Path, faults: Apply.Faults, name: string)
    ensures var res := SubstituteLiteral(ReadFile(t, broken, p), cfg.pattern, cfg.replace);
      WroteTo(FileStep(t, broken, umask, cfg, p, faults, name).0) <==>
        && !cfg.dryRun && res.Done? && res.result.changed
        && Diff.Rendered(res.result.before, res.result.after, !cfg.noColor, cfg.strictEol).1
    ensures !WroteTo(FileStep(t, broken, umask, cfg, p, faults, name).0) ==>
      FileStep(t, broken, umask, cfg, p, faults, name).1 == t
  {
  }

  /** A written file holds the substituted text, as a regular file with the
      permission bits it had. */
  lemma FileStepWritten(t: Tree, broken: set<Path>, umask: bv9, cfg: Config, p: Path, faults: Apply.Faults, name: string)
    ensures var (e, u) := FileStep(t, broken, umask, cfg, p, faults, name);
      e.Written? ==>
        && SubstituteLiteral(ReadFile(t, broken, p), cfg.pattern, cfg.replace) == Done(Substitution(ReadFile(t, broken, p).value, e.data,
             Count(ReadFile(t, broken, p).value, cfg.pattern), Count(ReadFile(t, broken, p).value, cfg.pattern), true))
        && Apply.Holds(u, p, Entry(Regular, e.data, Stat(t, broken, p).entry.perm, true))
  {
    var res := SubstituteLiteral(ReadFile(t, broken, p), cfg.pattern, cfg.replace);
    if res.Done? && res.result.changed {
      Apply.WriteAppliedContent(t, broken, umask, p, res.result.after, WriteOptions(cfg), faults, Apply.TempPath(p, name));
    }
  }

  /** One file's iteration keeps every other existing entry. */
  lemma FileStepKeepsOthers(t: Tree, broken: set<Path>, umask: bv9, cfg: Config, p: Path, faults: Apply.Faults, name: string)
    ensures var u := FileStep(t, broken, umask, cfg, p, faults, name).1;
      forall q | q in t && q != p :: Apply.Holds(u, q, t[q])
  {
    var res := SubstituteLiteral(ReadFile(t, broken, p), cfg.pattern, cfg.replace);
    if res.Done? && res.result.changed {
      Apply.WriteKeepsOthers(t, broken, umask, p, res.result.after, WriteOptions(cfg), faults, Apply.TempPath(p, name));
    }
  }

  /** A dry run writes nothing: the write step is never invoked and the
      tree is unchanged. */
  lemma {:induction false} DryRunChangesNothing(t: Tree, broken: set<Path>, umask: bv9, cfg: Config, paths: seq<Path>,
                                                faults: Path -> Apply.Faults, names: Path -> string)
    requires cfg.dryRun
    ensures var pr := Steps(t, broken, umask, cfg, paths, faults, names);
      pr.entries == t && forall i | 0 <= i < |pr.events| :: !WroteTo(pr.events[i])
  {
    if paths != [] {
      DryRunChangesNothing(t, broken, umask, cfg, paths[..|paths| - 1], faults, names);
    }
  }

  /** Each path whose event is a successful write holds that content. */
  predicate WrittenHold(paths: seq<Path>, events: seq<Event>, entries: Tree) {
    forall i | 0 <= i < |paths| && i < |events| && events[i].Written? ::
      paths[i] in entries && entries[paths[i]].kind == Regular && entries[paths[i]].content == events[i].data
  }

  /** One more iteration keeps WrittenHold when it keeps the other
      entries and its own write took. */
  lemma WrittenHoldStep(init: seq<Path>, last: Path, events: seq<Event>, e: Event, before: Tree, after: Tree)
    requires last !in init && |events| == |init|
    requires WrittenHold(init, events, before)
    requires forall q | q in before && q != last :: Apply.Holds(after, q, before[q])
    requires e.Written? ==> last in after && after[last].kind == Regular && after[last].content == e.data
    ensures WrittenHold(init + [last], events + [e], after)
  {
    var paths, es := init + [last], events + [e];
    forall i | 0 <= i < |paths| && i < |es| && es[i].Written?
      ensures paths[i] in after && after[paths[i]].kind == Regular && after[paths[i]].content == es[i].data
    {
      if i < |init| {
        assert paths[i] == init[i] && es[i] == events[i];
      }
    }
  }

  /** When the paths are distinct, every file written in the loop still
      holds its new content at the end: later iterations touch only their
      own file, its backup and its temp file, all new names. */
  lemma {:induction false} WrittenFilesKeepContent(t: Tree, broken: set<Path>, umask: bv9, cfg: Config, paths: seq<Path>,
                                                   faults: Path -> Apply.Faults, names: Path -> string)
    requires NoDuplicates(paths)
    ensures var pr := Steps(t, broken, umask, cfg, paths, faults, names);
      WrittenHold(paths, pr.events, pr.entries)
  {
    if paths != [] {
      var init := paths[..|paths| - 1];
      var last := paths[|paths| - 1];
      assert NoDuplicates(init) by {
        forall i, j | 0 <= i < j < |init| ensures init[i] != init[j] {
          assert init[i] == paths[i] && init[j] == paths[j];
        }
      }
      assert last !in init by {
        forall i | 0 <= i < |init| ensures init[i] != last {
          assert init[i] == paths[i];
        }
      }
      WrittenFilesKeepContent(t, broken, umask, cfg, init, faults, names);
      StepsLength(t, broken, umask, cfg, init, faults, names);
      var pr := Steps(t, broken, umask, cfg, init, faults, names);
      var step := FileStep(pr.entries, broken, umask, cfg, last, faults(last), names(last));
      FileStepKeepsOthers(pr.entries, broken, umask, cfg, last, faults(last), names(last));
      FileStepWritten(pr.entries, broken, umask, cfg, last, faults(last), names(last));
      WrittenHoldStep(init, last, pr.events, step.0, pr.entries, step.1);
      assert paths == init + [last];
    }
  }

  /** The substitution read the file and found nothing to change. */
  predicate Quiet(t: Tree, broken: set<Path>, cfg: Config, p: Path) {
    var res := SubstituteLiteral(ReadFile(t, broken, p), cfg.pattern, cfg.replace);
    res.Done? && !res.result.changed
  }

  /** One file's iteration that reports neither an error nor a change
      found the file readable and unchanged, and left the tree alone. */
  lemma FileStepQuiet(t: Tree, broken: set<Path>, umask: bv9, cfg: Config, p: Path, faults: Apply.Faults, name: string)
    ensures var (e, u) := FileStep(t, broken, umask, cfg, p, faults, name);
      !IsError(e) && !IsChange(e) ==> e == Unchanged && u == t && Quiet(t, broken, cfg, p)
  {
  }

  /** The last file of a quiet run: the run up to it was quiet as well,
      the last file left the tree alone, and it was read unchanged. */
  lemma QuietLast(t: Tree, broken: set<Path>, umask: bv9, cfg: Config, paths: seq<Path>,
                  faults: Path -> Apply.Faults, names: Path -> string)
    requires paths != []
    requires var pr := Steps(t, broken, umask, cfg, paths, faults, names);
      !AnyError(pr.events) && !AnyChange(pr.events)
    ensures var pr := Steps(t, broken, umask, cfg, paths[..|paths| - 1], faults, names);
      && !AnyError(pr.events) && !AnyChange(pr.events)
      && Steps(t, broken, umask, cfg, paths, faults, names).entries == pr.entries
      && Quiet(pr.entries, broken, cfg, paths[|paths| - 1])
  {
    var init := paths[..|paths| - 1];
    var last := paths[|paths| - 1];
    var pr := Steps(t, broken, umask, cfg, init, faults, names);
    StepsLength(t, broken, umask, cfg, init, faults, names);
    var step := FileStep(pr.entries, broken, umask, cfg, last, faults(last), names(last));
    assert Steps(t, broken, umask, cfg, paths, faults, names) == Progress(step.1, pr.events + [step.0]);
    AppendEvent(pr.events, step.0);
    FileStepQuiet(pr.entries, broken, umask, cfg, last, faults(last), names(last));
  }

  /** Without changes, every file was unchanged by the processor and the
      tree is as it was. */
  lemma {:induction false} QuietRun(t: Tree, broken: set<Path>, umask: bv9, cfg: Config, paths: seq<Path>,
                                    faults: Path -> Apply.Faults, names: Path -> string)
    requires var pr := Steps(t, broken, umask, cfg, paths, faults, names);
      !AnyError(pr.events) && !AnyChange(pr.events)
    ensures Steps(t, broken, umask, cfg, paths, faults, names).entries == t
    ensures forall q | q in paths :: Quiet(t, broken, cfg, q)
  {
    if paths != [] {
      QuietLast(t, broken, umask, cfg, paths, faults, names);
      QuietRun(t, broken, umask, cfg, paths[..|paths| - 1], faults, names);
      QuietSnoc(t, broken, cfg, paths);
    }
  }

  /** A list is quiet when its prefix and its last element are. */
  lemma QuietSnoc(t: Tree, broken: set<Path>, cfg: Config, paths: seq<Path>)
    requires paths != []
    requires forall q | q in paths[..|paths| - 1] :: Quiet(t, broken, cfg, q)
    requires Quiet(t, broken, cfg, paths[|paths| - 1])
    ensures forall q | q in paths :: Quiet(t, broken, cfg, q)
  {
    assert paths == paths[..|paths| - 1] + [paths[|paths| - 1]];
  }

  /** Exit code 0 after discovery means every discovered file was read,
      none of them was changed by the substitution, and nothing was
      written. */
  lemma ExitZeroMeansUntouched(t: Tree, broken: set<Path>, umask: bv9, cfg: Config, d: Discovery,
                               faults: Path -> Apply.Faults, names: Path -> string)
    requires Finish(t, broken, umask, cfg, d, faults, names).0 == 0
    ensures d.Discovered? && d.issues == []
    ensures Finish(t, broken, umask, cfg, d, faults, names).1 == t
    ensures forall p | p in d.paths :: Quiet(t, broken, cfg, p)
  {
    var ps := SortStrings(d.paths);
    QuietRun(t, broken, umask, cfg, ps, faults, names);
    forall p | p in d.paths
      ensures Quiet(t, broken, cfg, p)
    {
      assert p in multiset(d.paths);
      assert p in multiset(ps);
    }
  }

  /** Over a whole run on what discovery returned (each path once), every
      file written successfully still holds its new content at the end. */
  lemma FinishKeepsWrites(t: Tree, broken: set<Path>, umask: bv9, cfg: Config, d: Discovery,
                          faults: Path -> Apply.Faults, names: Path -> string)
    requires d.Discovered? && NoDuplicates(d.paths)
    ensures var ps := SortStrings(d.paths);
      var pr := Steps(t, broken, umask, cfg, ps, faults, names);
      && (|d.issues| == 0 || |d.paths| > 0 ==> Finish(t, broken, umask, cfg, d, faults, names).1 == pr.entries)
      && WrittenHold(ps, pr.events, pr.entries)
  {
    var ps := SortStrings(d.paths);
    PermutationKeepsDistinct(d.paths, ps);
    WrittenFilesKeepContent(t, broken, umask, cfg, ps, faults, names);
  }

  /** "--ext ." passes validation but normalizes to no selector, so the
      run ends with exit code 2 and touches nothing. */
  lemma DotExtExitsTwo(t: Tree, broken: set<Path>, umask: bv9, m: Matcher, cwd: Option<Path>, cfg: Config, d: Discovery,
                       faults: Path -> Apply.Faults, names: Path -> string)
    requires cfg.pattern != "" && cfg.replace != "" && !cfg.regex && !(cfg.yes && cfg.interactive)
    requires cfg.glob == "" && cfg.ext == "." && cfg.files == []
    requires Describes(t, broken, m, cwd, ".", SelectorOf(cfg), d)
    ensures Validate(cfg).None?
    ensures Finish(t, broken, umask, cfg, d, faults, names) == (2, t)
  {
    if Normalize(cwd, ".", SelectorOf(cfg)).Some? {
      DotExtIsNoSelector(cwd, ".", []);
    }
  }

  /** Sorting one path leaves it as it is. */
  lemma SortSingle(p: Path)
    ensures SortStrings([p]) == [p]
  {
    var r := SortStrings([p]);
    assert |r| == |multiset(r)| == 1;
    assert r[0] in multiset(r);
  }

  /** A run over a single discovered path with no discovery error. */
  lemma FinishOne(t: Tree, broken: set<Path>, umask: bv9, cfg: Config, p: Path,
                  faults: Path -> Apply.Faults, names: Path -> string)
    ensures var (e, u) := FileStep(t, broken, umask, cfg, p, faults(p), names(p));
      Finish(t, broken, umask, cfg, Discovered([p], []), faults, names)
        == (if IsError(e) then 2 else if IsChange(e) then 1 else 0, u)
  {
    SortSingle(p);
    assert [p][..0] == [];
    var (e, u) := FileStep(t, broken, umask, cfg, p, faults(p), names(p));
    assert Steps(t, broken, umask, cfg, [p], faults, names) == Progress(u, [e]);
    assert [e][0] == e;
  }

  /** The substitution and the diff for the trailing-newline example. */
  lemma TrailingNewlineTexts(color: bool)
    ensures SubstituteLiteral(Some("a"), "a", "a\n") == Done(Substitution("a", "a\n", 1, 1, true))
    ensures Diff.Rendered("a", "a\n", color, false) == ("", false)
  {
    OneOccurrence("a", "", "a\n");
    assert "a" + "" == "a" && "a\n" + "" == "a\n";
    assert TrimSuffix("a\n", "\n") == "a";
  }

  /** A replacement that only adds a final newline is not shown and not
      written, but still counts as a change: exit code 1. */
  lemma ExampleTrailingNewlineOnly(t: Tree, broken: set<Path>, umask: bv9, cfg: Config, p: Path,
                                   faults: Path -> Apply.Faults, names: Path -> string)
    requires ReadFile(t, broken, p) == Some("a")
    requires cfg.pattern == "a" && cfg.replace == "a\n" && !cfg.strictEol
    ensures FileStep(t, broken, umask, cfg, p, faults(p), names(p)) == (NotMeaningful, t)
    ensures Finish(t, broken, umask, cfg, Discovered([p], []), faults, names) == (1, t)
  {
    TrailingNewlineTexts(!cfg.noColor);
    FinishOne(t, broken, umask, cfg, p, faults, names);
  }

  /** The substitution and the diff for the apply example. */
  lemma FooBarTexts(color: bool, strictEol: bool)
    ensures SubstituteLiteral(Some("foo\n"), "foo", "bar") == Done(Substitution("foo\n", "bar\n", 1, 1, true))
    ensures Diff.Rendered("foo\n", "bar\n", color, strictEol).1
  {
    OneOccurrence("foo", "\n", "bar");
    assert "foo" + "\n" == "foo\n" && "bar" + "\n" == "bar\n";
    assert !IsBinary("foo\n");
    assert TrimSuffix("foo\n", "\n") == "foo";
  }

  /** The loop body for the apply example. */
  lemma ApplyWithBackupStep(t: Tree, broken: set<Path>, umask: bv9, cfg: Config, p: Path, perm: bv9, name: string)
    requires p in t && p !in broken && t[p] == Entry(Regular, "foo\n", perm, true)
    requires cfg.pattern == "foo" && cfg.replace == "bar" && cfg.backup && !cfg.dryRun
    requires var bak := Paths.Join(Dir(p), Base(p) + ".bak");
      var tmp := Apply.TempPath(p, name);
      Apply.Free(t, broken, bak) && Apply.Free(t, broken, tmp) && tmp != bak
    ensures var bak := Paths.Join(Dir(p), Base(p) + ".bak");
      var (e, u) := FileStep(t, broken, umask, cfg, p, Apply.NoFaults, name);
      && e == Written("bar\n")
      && p in u && u[p].content == "bar\n"
      && bak in u && u[bak].content == "foo\n"
  {
    FooBarTexts(!cfg.noColor, cfg.strictEol);
    ReadRegular(t, broken, p);
    Apply.BackupName(t, broken, Dir(p), Base(p), ".bak");
    FileStepWithBackup(t, broken, umask, cfg, p, name, "foo\n", "bar\n", 1);
    FileStepWritten(t, broken, umask, cfg, p, Apply.NoFaults, name);
    FileStepBackedUp(t, broken, umask, cfg, p, Apply.NoFaults, name);
  }

  /** With backups on and no faults, a file whose substitution makes a
      meaningful change is written when its backup and temp names are
      free and distinct. */
  lemma FileStepWithBackup(t: Tree, broken: set<Path>, umask: bv9, cfg: Config, p: Path, name: string,
                           before: string, after: string, n: nat)
    requires p in t && p !in broken && t[p].kind == Regular && t[p].readable && ReadFile(t, broken, p) == Some(before)
    requires cfg.backup && !cfg.dryRun
    requires SubstituteLiteral(Some(before), cfg.pattern, cfg.replace) == Done(Substitution(before, after, n, n, true))
    requires Diff.Rendered(before, after, !cfg.noColor, cfg.strictEol).1
    requires var bp := Apply.FirstFreeBackup(t, broken, Dir(p), Base(p), Apply.DefaultSuffix, 0);
      bp.Some? && Apply.Free(t, broken, Apply.TempPath(p, name)) && bp != Some(Apply.TempPath(p, name))
    ensures FileStep(t, broken, umask, cfg, p, Apply.NoFaults, name).0 == Written(after)
  {
    FileStepApplies(t, broken, umask, cfg, p, Apply.NoFaults, name, before, after, n, Apply.TempPath(p, name));
    Apply.BackupWriteApplies(t, broken, umask, p, after, Apply.TempPath(p, name));
  }

  /** With backups on, a written file's original content is in the first
      free backup name, as a complete copy under the umask. */
  lemma FileStepBackedUp(t: Tree, broken: set<Path>, umask: bv9, cfg: Config, p: Path, faults: Apply.Faults, name: string)
    ensures var (e, u) := FileStep(t, broken, umask, cfg, p, faults, name);
      var bp := Apply.FirstFreeBackup(t, broken, Dir(p), Base(p), Apply.DefaultSuffix, 0);
      e.Written? && cfg.backup ==>
        bp.Some? && Stat(t, broken, p).Found? && Apply.Holds(u, bp.value, Apply.Copy(Stat(t, broken, p).entry, umask))
  {
    var res := SubstituteLiteral(ReadFile(t, broken, p), cfg.pattern, cfg.replace);
    if res.Done? && res.result.changed && cfg.backup {
      var tmp := Apply.TempPath(p, name);
      Apply.WriteApplied(t, broken, umask, p, res.result.after, WriteOptions(cfg), faults, tmp);
      Apply.WriteBackupChoice(t, broken, umask, p, res.result.after, WriteOptions(cfg), faults, tmp);
      Apply.WriteBackupHolds(t, broken, umask, p, res.result.after, WriteOptions(cfg), faults, tmp);
    }
  }

  /** A meaningful change outside a dry run goes to the write step, and
      the event and tree are what that write attempt gives. */
  lemma FileStepApplies(t: Tree, broken: set<Path>, umask: bv9, cfg: Config, p: Path, faults: Apply.Faults, name: string,
                        before: string, after: string, n: nat, tmp: Path)
    requires ReadFile(t, broken, p) == Some(before) && !cfg.dryRun
    requires SubstituteLiteral(Some(before), cfg.pattern, cfg.replace) == Done(Substitution(before, after, n, n, true))
    requires Diff.Rendered(before, after, !cfg.noColor, cfg.strictEol).1
    requires tmp == Apply.TempPath(p, name)
    ensures var a := Apply.WriteSpec(t, broken, umask, p, after, Apply.Options(cfg.backup, ""), faults, tmp);
      FileStep(t, broken, umask, cfg, p, faults, name)
      == (if a.outcome.Applied? then Written(after) else WriteFailed(a.outcome.stage), a.entries)
  {
  }

  /** Applying with backups: "foo\n" becomes "bar\n", the original goes to
      the ".bak" file beside it, and the exit code is 1. */
  lemma ExampleApplyWithBackup(t: Tree, broken: set<Path>, umask: bv9, cfg: Config, p: Path, perm: bv9,
                               faults: Path -> Apply.Faults, names: Path -> string)
    requires p in t && p !in broken && t[p] == Entry(Regular, "foo\n", perm, true)
    requires cfg.pattern == "foo" && cfg.replace == "bar" && cfg.backup && !cfg.dryRun
    requires faults(p) == Apply.NoFaults
    requires var bak := Paths.Join(Dir(p), Base(p) + ".bak");
      var tmp := Apply.TempPath(p, names(p));
      Apply.Free(t, broken, bak) && Apply.Free(t, broken, tmp) && tmp != bak
    ensures var bak := Paths.Join(Dir(p), Base(p) + ".bak");
      var (code, u) := Finish(t, broken, umask, cfg, Discovered([p], []), faults, names);
      && code == 1
      && p in u && u[p].content == "bar\n"
      && bak in u && u[bak].content == "foo\n"
  {
    ApplyWithBackupStep(t, broken, umask, cfg, p, perm, names(p));
    FinishOne(t, broken, umask, cfg, p, faults, names);
  }
}
