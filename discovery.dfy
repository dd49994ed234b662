/** Choosing the files to work on (internal/discovery): explicit file
    names, a glob and a recursive walk by extension, each contributing to
    one set of paths; excludes remove paths from it; the result is sorted.
    Failures of one mechanism are collected and do not stop the others.

    Glob patterns are abstract: a `Matcher` says which patterns are
    malformed and which names a pattern matches, standing for
    filepath.Match; filepath.Glob is the set of tree paths the pattern
    matches. */
module Discovery {
  import opened Wrappers
  import opened Strings
  import opened Paths
  import opened Fs

  datatype Selector = Selector(glob: string, ext: string, files: seq<string>, exclude: seq<string>)

  datatype Matcher = Matcher(malformed: string -> bool, matches: (string, string) -> bool)

  /** The non-fatal errors discovery collects. */
  datatype Issue =
    | FileFailed(file: string)
    | GlobFailed(pattern: string)
    | WalkFailed(path: Path)
    | AbsFailed(path: Path)

  /** The errors that stop discovery before any expansion. */
  datatype FatalError = InvalidRoot | NoSelector

  datatype Discovery =
    | Fatal(reason: FatalError)
    | Discovered(paths: seq<Path>, issues: seq<Issue>)

  /** Every path of the tree is absolute, as real file-system paths are. */
  predicate Rooted(t: Tree) {
    forall p | p in t :: IsAbs(p)
  }

  /** The working directory, when known, is absolute (os.Getwd). */
  predicate AbsoluteCwd(cwd: Option<Path>) {
    cwd.Some? ==> IsAbs(cwd.value)
  }

  // -----------------------------------------------------------------------
  // Pure queries

  datatype Normalized = Normalized(root: Path, sel: Selector)

  /** normalize: the root "" means "."; it is made absolute; one leading
      dot is dropped from the extension. Only a relative root with no
      working directory fails. */
  function Normalize(cwd: Option<Path>, root: Path, sel: Selector): (r: Option<Normalized>)
    ensures r.None? <==> cwd.None? && !IsAbs(if root == "" then "." else root)
    ensures r.Some? ==> r.value.sel == sel.(ext := TrimPrefix(sel.ext, "."))
    ensures r.Some? && AbsoluteCwd(cwd) ==> IsAbs(r.value.root)
  {
    var abs := Abs(cwd, if root == "" then "." else root);
    if abs.None? then None
    else Some(Normalized(abs.value, sel.(ext := TrimPrefix(sel.ext, "."))))
  }

  /** No selection mechanism is asked for. */
  predicate NoSelection(sel: Selector) {
    sel.glob == "" && sel.ext == "" && |sel.files| == 0
  }

  /** match: a malformed pattern matches nothing. */
  predicate Match(m: Matcher, pattern: string, name: string): (r: bool)
    ensures m.malformed(pattern) ==> !r
  {
    !m.malformed(pattern) && m.matches(pattern, name)
  }

  /** isRegular: the entry itself (symlinks not followed) exists and is a
      regular file. */
  predicate IsRegular(t: Tree, broken: set<Path>, p: Path): (r: bool)
    ensures r <==> p !in broken && p in t && t[p].kind == Regular
  {
    Lstat(t, broken, p).Found? && Lstat(t, broken, p).entry.kind == Regular
  }

  /** toAbsUnderRoot: relative names are taken under the root. */
  function ToAbsUnderRoot(cwd: Option<Path>, root: Path, p: Path): (r: Option<Path>)
    ensures IsAbs(root) ==> r == Some(if IsAbs(p) then p else Paths.Join(root, p))
  {
    Abs(cwd, if IsAbs(p) then p else Paths.Join(root, p))
  }

  // -----------------------------------------------------------------------
  // Explicit files

  /** The paths expandFiles keeps from `files`, in order. */
  function FilesOut(t: Tree, broken: set<Path>, cwd: Option<Path>, root: Path, files: seq<string>): seq<Path>
  {
    if files == [] then []
    else
      var rest := FilesOut(t, broken, cwd, root, files[..|files| - 1]);
      var a := ToAbsUnderRoot(cwd, root, files[|files| - 1]);
      if a.Some? && IsRegular(t, broken, a.value) then rest + [a.value] else rest
  }

  /** The errors expandFiles reports, in order. */
  function FilesIssues(cwd: Option<Path>, root: Path, files: seq<string>): seq<Issue>
  {
    if files == [] then []
    else
      var rest := FilesIssues(cwd, root, files[..|files| - 1]);
      if ToAbsUnderRoot(cwd, root, files[|files| - 1]).None? then rest + [FileFailed(files[|files| - 1])] else rest
  }

  /** expandFiles. */
  method ExpandFiles(t: Tree, broken: set<Path>, cwd: Option<Path>, root: Path, files: seq<string>)
    returns (out: seq<Path>, issues: seq<Issue>)
    ensures out == FilesOut(t, broken, cwd, root, files)
    ensures issues == FilesIssues(cwd, root, files)
  {
    out, issues := [], [];
    for i := 0 to |files|
      invariant out == FilesOut(t, broken, cwd, root, files[..i])
      invariant issues == FilesIssues(cwd, root, files[..i])
    {
      assert files[..i + 1][..i] == files[..i];
      var abs := ToAbsUnderRoot(cwd, root, files[i]);
      if abs.None? {
        issues := issues + [FileFailed(files[i])];
        continue;
      }
      if IsRegular(t, broken, abs.value) {
        out := out + [abs.value];
      }
    }
    assert files[..|files|] == files;
  }

  // -----------------------------------------------------------------------
  // Glob

  /** A relative glob is taken under the root. */
  function GlobPattern(root: Path, glob: string): string {
    if IsAbs(glob) then glob else Paths.Join(root, glob)
  }

  /** filepath.Glob for a well-formed pattern. */
  function Glob(t: Tree, m: Matcher, pattern: string): set<Path> {
    set p | p in t.Keys && m.matches(pattern, p)
  }

  /** `abs, _ := filepath.Abs(m)`: the error is dropped, leaving "". */
  function AbsOrEmpty(cwd: Option<Path>, p: Path): Path {
    var a := Abs(cwd, p);
    if a.Some? then a.value else ""
  }

  /** The paths expandGlob returns. */
  function GlobOut(t: Tree, broken: set<Path>, m: Matcher, cwd: Option<Path>, root: Path, glob: string): set<Path> {
    var pattern := GlobPattern(root, glob);
    if m.malformed(pattern) then {}
    else set q | q in Glob(t, m, pattern) && IsRegular(t, broken, q) :: AbsOrEmpty(cwd, q)
  }

  /** The error expandGlob returns: only a malformed pattern. */
  function GlobIssues(m: Matcher, root: Path, glob: string): seq<Issue> {
    var pattern := GlobPattern(root, glob);
    if m.malformed(pattern) then [GlobFailed(pattern)] else []
  }

  /** expandGlob. */
  method ExpandGlob(t: Tree, broken: set<Path>, m: Matcher, cwd: Option<Path>, root: Path, glob: string)
    returns (out: seq<Path>, issues: seq<Issue>)
    ensures forall p :: p in out <==> p in GlobOut(t, broken, m, cwd, root, glob)
    ensures issues == GlobIssues(m, root, glob)
  {
    var pattern := glob;
    if !IsAbs(pattern) {
      pattern := Paths.Join(root, pattern);
    }
    if m.malformed(pattern) {
      return [], [GlobFailed(pattern)];
    }
    var matches := Glob(t, m, pattern);
    out, issues := [], [];
    var rest := matches;
    ghost var done: set<Path> := {};
    while rest != {}
      invariant done == matches - rest && rest <= matches
      invariant forall p :: p in out <==> exists q :: q in done && IsRegular(t, broken, q) && AbsOrEmpty(cwd, q) == p
      decreases |rest|
    {
      var q :| q in rest;
      if IsRegular(t, broken, q) {
        out := out + [AbsOrEmpty(cwd, q)];
      }
      rest := rest - {q};
      done := done + {q};
    }
  }

  // -----------------------------------------------------------------------
  // Extension walk

  /** filepath.WalkDir from `root` reaches `p`: the root itself when its
      Lstat succeeds, and every entry of a reached directory that can be
      listed. */
  predicate Reached(t: Tree, broken: set<Path>, root: Path, p: Path)
    decreases |p|
  {
    if p == root then Lstat(t, broken, root).Found?
    else
      var d := Dir(p);
      && p in t && |d| < |p| && d in t && t[d].kind == Directory && t[d].readable
      && Reached(t, broken, root, d)
  }

  /** Nothing is reached unless the root can be examined. */
  lemma {:induction false} ReachedNeedsRoot(t: Tree, broken: set<Path>, root: Path, p: Path)
    requires Reached(t, broken, root, p)
    ensures Lstat(t, broken, root).Found?
    decreases |p|
  {
    if p != root {
      ReachedNeedsRoot(t, broken, root, Dir(p));
    }
  }

  /** Everything the walk visits. */
  function Visits(t: Tree, broken: set<Path>, root: Path): set<Path> {
    set p | p in t.Keys && Reached(t, broken, root, p)
  }

  /** The lower-cased extension searched for, one leading dot dropped. */
  function Target(ext: string): string {
    ToLower(TrimPrefix(ext, "."))
  }

  /** The extension of `p` without its dot equals `target`, ignoring case. */
  predicate ExtMatches(p: Path, target: string) {
    EqualFold(TrimPrefix(Ext(p), "."), target)
  }

  /** The walk function selects `p`: a regular file (by its directory
      entry, so never a symlink) with the extension. */
  predicate WalkHit(t: Tree, p: Path, target: string)
    requires p in t
  {
    t[p].kind == Regular && ExtMatches(p, target)
  }

  /** A visited directory that cannot be listed. */
  predicate Unlistable(t: Tree, p: Path)
    requires p in t
  {
    t[p].kind == Directory && !t[p].readable
  }

  /** The paths expandExt returns. */
  function ExtOut(t: Tree, broken: set<Path>, cwd: Option<Path>, root: Path, ext: string): set<Path> {
    set p | p in Visits(t, broken, root) && WalkHit(t, p, Target(ext)) && Abs(cwd, p).Some? :: Abs(cwd, p).value
  }

  /** The errors expandExt collects: a root that cannot be examined,
      visited directories that cannot be listed, and hits that cannot be
      made absolute. */
  predicate ExtIssue(t: Tree, broken: set<Path>, cwd: Option<Path>, root: Path, ext: string, x: Issue) {
    match x
    case WalkFailed(d) =>
      (d == root && !Lstat(t, broken, root).Found?) || (d in Visits(t, broken, root) && Unlistable(t, d))
    case AbsFailed(p) => p in Visits(t, broken, root) && WalkHit(t, p, Target(ext)) && Abs(cwd, p).None?
    case _ => false
  }

  /** The walk function for one visited entry `p`: what it adds to the
      paths and to the errors. */
  method VisitEntry(t: Tree, cwd: Option<Path>, p: Path, target: string) returns (found: seq<Path>, errs: seq<Issue>)
    requires p in t
    ensures forall a :: a in found <==> WalkHit(t, p, target) && Abs(cwd, p) == Some(a)
    ensures forall d :: WalkFailed(d) in errs <==> d == p && Unlistable(t, p)
    ensures forall q :: AbsFailed(q) in errs <==> q == p && WalkHit(t, p, target) && Abs(cwd, p).None?
    ensures forall x | x in errs :: x.WalkFailed? || x.AbsFailed?
  {
    found, errs := [], [];
    if t[p].kind == Regular && EqualFold(TrimPrefix(Ext(p), "."), target) {
      var abs := Abs(cwd, p);
      if abs.None? {
        errs := [AbsFailed(p)];
      } else {
        found := [abs.value];
      }
    }
    if t[p].kind == Directory && !t[p].readable {
      // listing fails: the walk function is called again, with the error
      errs := errs + [WalkFailed(p)];
    }
  }

  /** The walk function applied to each visited entry, in some order. */
  method Walk(t: Tree, cwd: Option<Path>, visits: set<Path>, target: string) returns (out: seq<Path>, issues: seq<Issue>)
    requires visits <= t.Keys
    ensures forall p :: p in out <==> exists q :: q in visits && WalkHit(t, q, target) && Abs(cwd, q) == Some(p)
    ensures forall d :: WalkFailed(d) in issues <==> d in visits && Unlistable(t, d)
    ensures forall q :: AbsFailed(q) in issues <==> q in visits && WalkHit(t, q, target) && Abs(cwd, q).None?
    ensures forall x | x in issues :: x.WalkFailed? || x.AbsFailed?
  {
    out, issues := [], [];
    var rest := visits;
    ghost var done: set<Path> := {};
    while rest != {}
      invariant done == visits - rest && rest <= visits
      invariant forall p :: p in out <==> exists q :: q in done && WalkHit(t, q, target) && Abs(cwd, q) == Some(p)
      invariant forall d :: WalkFailed(d) in issues <==> d in done && Unlistable(t, d)
      invariant forall q :: AbsFailed(q) in issues <==> q in done && WalkHit(t, q, target) && Abs(cwd, q).None?
      invariant forall x | x in issues :: x.WalkFailed? || x.AbsFailed?
      decreases |rest|
    {
      var p :| p in rest;
      var found, errs := VisitEntry(t, cwd, p, target);
      out := out + found;
      issues := issues + errs;
      rest := rest - {p};
      done := done + {p};
    }
  }

  /** A root that cannot be examined: no paths, the one error. */
  lemma RootFailureOnly(t: Tree, broken: set<Path>, cwd: Option<Path>, root: Path, ext: string)
    requires !Lstat(t, broken, root).Found?
    ensures ExtOut(t, broken, cwd, root, ext) == {}
    ensures forall x :: ExtIssue(t, broken, cwd, root, ext, x) <==> x == WalkFailed(root)
  {
    forall p | p in t && Reached(t, broken, root, p) ensures false {
      ReachedNeedsRoot(t, broken, root, p);
    }
    assert Visits(t, broken, root) == {};
  }

  /** The paths the walk function collects over all visited entries are
      those expandExt promises. */
  lemma WalkPaths(t: Tree, broken: set<Path>, cwd: Option<Path>, root: Path, ext: string, out: seq<Path>)
    requires forall p :: p in out <==>
      exists q :: q in Visits(t, broken, root) && WalkHit(t, q, Target(ext)) && Abs(cwd, q) == Some(p)
    ensures forall p :: p in out <==> p in ExtOut(t, broken, cwd, root, ext)
  {
    forall a | a in ExtOut(t, broken, cwd, root, ext)
      ensures a in out
    {
      var q :| q in Visits(t, broken, root) && WalkHit(t, q, Target(ext)) && Abs(cwd, q).Some? && Abs(cwd, q).value == a;
      assert Abs(cwd, q) == Some(a);
    }
  }

  /** The errors the walk function collects over all visited entries of
      an examinable root are those expandExt promises. */
  lemma WalkIssues(t: Tree, broken: set<Path>, cwd: Option<Path>, root: Path, ext: string, issues: seq<Issue>)
    requires Lstat(t, broken, root).Found?
    requires forall d :: WalkFailed(d) in issues <==> d in Visits(t, broken, root) && Unlistable(t, d)
    requires forall q :: AbsFailed(q) in issues <==>
      q in Visits(t, broken, root) && WalkHit(t, q, Target(ext)) && Abs(cwd, q).None?
    requires forall x | x in issues :: x.WalkFailed? || x.AbsFailed?
    ensures forall x :: x in issues <==> ExtIssue(t, broken, cwd, root, ext, x)
  {
    forall x ensures x in issues <==> ExtIssue(t, broken, cwd, root, ext, x) {
      match x
      case WalkFailed(d) =>
      case AbsFailed(q) =>
      case _ =>
        assert x !in issues;
    }
  }

  /** expandExt; the walk's visiting order is not modelled. */
  method ExpandExt(t: Tree, broken: set<Path>, cwd: Option<Path>, root: Path, ext: string)
    returns (out: seq<Path>, issues: seq<Issue>)
    ensures forall p :: p in out <==> p in ExtOut(t, broken, cwd, root, ext)
    ensures forall x :: x in issues <==> ExtIssue(t, broken, cwd, root, ext, x)
  {
    var target := ToLower(TrimPrefix(ext, "."));
    if !Lstat(t, broken, root).Found? {
      // the walk function is called once, with the error for the root
      RootFailureOnly(t, broken, cwd, root, ext);
      return [], [WalkFailed(root)];
    }
    var visits := Visits(t, broken, root);
    out, issues := Walk(t, cwd, visits, target);
    WalkPaths(t, broken, cwd, root, ext, out);
    WalkIssues(t, broken, cwd, root, ext, issues);
  }

  // -----------------------------------------------------------------------
  // Excludes

  /** `rel, _ := filepath.Rel(root, p)`: the error for a relative `p` is
      dropped, leaving "". */
  function RelOrEmpty(root: Path, p: Path): (r: Path)
    ensures r == "" <==> !(IsAbs(root) && IsAbs(p))
  {
    if IsAbs(root) && IsAbs(p) then Rel(root, p) else ""
  }

  /** One exclude pattern removes `p`: it matches the path relative to the
      root or the base name, or, when absolute, the path itself. */
  predicate ExcludedBy(m: Matcher, root: Path, ex: string, p: Path) {
    Match(m, ex, RelOrEmpty(root, p)) || Match(m, ex, Base(p)) || (IsAbs(ex) && Match(m, ex, p))
  }

  predicate Excluded(m: Matcher, root: Path, excludes: seq<string>, p: Path) {
    exists ex | ex in excludes :: ExcludedBy(m, root, ex, p)
  }

  /** The paths applyExcludes keeps, in their order. */
  function Kept(m: Matcher, root: Path, paths: seq<Path>, excludes: seq<string>): seq<Path> {
    if paths == [] then []
    else
      var rest := Kept(m, root, paths[..|paths| - 1], excludes);
      var p := paths[|paths| - 1];
      if Excluded(m, root, excludes, p) then rest else rest + [p]
  }

  /** Whether some pattern of `excludes` removes `p`: the inner loop of
      applyExcludes. */
  method AnyExcludes(m: Matcher, root: Path, excludes: seq<string>, p: Path) returns (hit: bool)
    ensures hit <==> Excluded(m, root, excludes, p)
  {
    var rel := RelOrEmpty(root, p);
    var base := Base(p);
    for j := 0 to |excludes|
      invariant forall k | 0 <= k < j :: !ExcludedBy(m, root, excludes[k], p)
    {
      var ex := excludes[j];
      if Match(m, ex, rel) || Match(m, ex, base) {
        assert ExcludedBy(m, root, ex, p);
        return true;
      }
      if IsAbs(ex) && Match(m, ex, p) {
        assert ExcludedBy(m, root, ex, p);
        return true;
      }
    }
    return false;
  }

  /** applyExcludes. */
  method ApplyExcludes(m: Matcher, root: Path, paths: seq<Path>, excludes: seq<string>) returns (filtered: seq<Path>)
    ensures filtered == Kept(m, root, paths, excludes)
  {
    filtered := [];
    for i := 0 to |paths|
      invariant filtered == Kept(m, root, paths[..i], excludes)
    {
      assert paths[..i + 1][..i] == paths[..i];
      var hit := AnyExcludes(m, root, excludes, paths[i]);
      if hit {
        continue;
      }
      filtered := filtered + [paths[i]];
    }
    assert paths[..|paths|] == paths;
  }

  /** A path survives the excludes exactly when it was there and no
      pattern removes it. */
  lemma {:induction false} KeptMembers(m: Matcher, root: Path, paths: seq<Path>, excludes: seq<string>, p: Path)
    ensures p in Kept(m, root, paths, excludes) <==> p in paths && !Excluded(m, root, excludes, p)
  {
    if paths != [] {
      var init := paths[..|paths| - 1];
      KeptMembers(m, root, init, excludes, p);
      assert paths == init + [paths[|paths| - 1]];
    }
  }

  /** Filtering never introduces a duplicate. */
  lemma {:induction false} KeptDistinct(m: Matcher, root: Path, paths: seq<Path>, excludes: seq<string>)
    requires NoDuplicates(paths)
    ensures NoDuplicates(Kept(m, root, paths, excludes))
  {
    if paths != [] {
      var init := paths[..|paths| - 1];
      var last := paths[|paths| - 1];
      assert NoDuplicates(init) by {
        forall i, j | 0 <= i < j < |init| ensures init[i] != init[j] {
          assert init[i] == paths[i] && init[j] == paths[j];
        }
      }
      KeptDistinct(m, root, init, excludes);
      KeptMembers(m, root, init, excludes, last);
      assert last !in init by {
        forall i | 0 <= i < |init| ensures init[i] != last {
          assert init[i] == paths[i];
        }
      }
    }
  }

  // -----------------------------------------------------------------------
  // Discover

  /** One of the requested mechanisms yields `p`. */
  predicate Selected(t: Tree, broken: set<Path>, m: Matcher, cwd: Option<Path>, n: Normalized, p: Path) {
    || (|n.sel.files| > 0 && p in FilesOut(t, broken, cwd, n.root, n.sel.files))
    || (n.sel.glob != "" && p in GlobOut(t, broken, m, cwd, n.root, n.sel.glob))
    || (n.sel.ext != "" && p in ExtOut(t, broken, cwd, n.root, n.sel.ext))
  }

  /** `p` is in the result of Discover. */
  predicate Chosen(t: Tree, broken: set<Path>, m: Matcher, cwd: Option<Path>, n: Normalized, p: Path) {
    Selected(t, broken, m, cwd, n, p) && !Excluded(m, n.root, n.sel.exclude, p)
  }

  /** `x` is one of the errors Discover joins. */
  predicate DiscoveryIssue(t: Tree, broken: set<Path>, m: Matcher, cwd: Option<Path>, n: Normalized, x: Issue) {
    || (|n.sel.files| > 0 && x in FilesIssues(cwd, n.root, n.sel.files))
    || (n.sel.glob != "" && x in GlobIssues(m, n.root, n.sel.glob))
    || (n.sel.ext != "" && ExtIssue(t, broken, cwd, n.root, n.sel.ext, x))
  }

  /** The three expansions merged into one set, with the errors of each
      active selector. */
  method Expand(t: Tree, broken: set<Path>, m: Matcher, cwd: Option<Path>, n: Normalized)
    returns (resultSet: set<Path>, errs: seq<Issue>)
    ensures forall p :: p in resultSet <==> Selected(t, broken, m, cwd, n, p)
    ensures forall x :: x in errs <==> DiscoveryIssue(t, broken, m, cwd, n, x)
  {
    resultSet, errs := {}, [];
    if |n.sel.files| > 0 {
      var paths, ferrs := ExpandFiles(t, broken, cwd, n.root, n.sel.files);
      resultSet := resultSet + set p | p in paths;
      errs := errs + ferrs;
    }
    if n.sel.glob != "" {
      var paths, gerrs := ExpandGlob(t, broken, m, cwd, n.root, n.sel.glob);
      resultSet := resultSet + set p | p in paths;
      errs := errs + gerrs;
    }
    if n.sel.ext != "" {
      var paths, werrs := ExpandExt(t, broken, cwd, n.root, n.sel.ext);
      resultSet := resultSet + set p | p in paths;
      errs := errs + werrs;
    }
  }

  /** The set's elements in some order, each once. */
  method ToSeq(s: set<Path>) returns (paths: seq<Path>)
    ensures forall p :: p in paths <==> p in s
    ensures NoDuplicates(paths)
  {
    paths := [];
    var rest := s;
    while rest != {}
      invariant rest <= s
      invariant forall p :: p in paths <==> p in s - rest
      invariant NoDuplicates(paths)
      decreases |rest|
    {
      var p :| p in rest;
      ghost var before := paths;
      paths := paths + [p];
      forall i, j | 0 <= i < j < |paths| ensures paths[i] != paths[j] {
        assert paths[i] == before[i] && paths[i] in before;
        if j < |before| {
          assert paths[j] == before[j];
        }
      }
      rest := rest - {p};
    }
  }

  /** The set as a slice, the excludes applied (when there are any),
      then sorted. */
  method Arrange(m: Matcher, root: Path, resultSet: set<Path>, exclude: seq<string>) returns (sorted: seq<Path>)
    ensures Sorted(sorted) && NoDuplicates(sorted)
    ensures forall p :: p in sorted <==> p in resultSet && !Excluded(m, root, exclude, p)
  {
    var paths := ToSeq(resultSet);
    ghost var unfiltered := paths;
    if |exclude| > 0 && |paths| > 0 {
      paths := ApplyExcludes(m, root, paths, exclude);
      KeptDistinct(m, root, unfiltered, exclude);
      forall p ensures p in paths <==> p in unfiltered && !Excluded(m, root, exclude, p) {
        KeptMembers(m, root, unfiltered, exclude, p);
      }
    }
    sorted := SortStrings(paths);
    PermutationKeepsDistinct(paths, sorted);
    forall p ensures p in sorted <==> p in paths {
      assert p in sorted <==> p in multiset(sorted);
      assert p in paths <==> p in multiset(paths);
    }
  }

  /** What Discover promises about its result `r`: the selected regular
      files not excluded, sorted, each once, with every non-fatal error;
      or the reason nothing was tried. */
  ghost predicate Describes(t: Tree, broken: set<Path>, m: Matcher, cwd: Option<Path>, root: Path, sel: Selector, r: Discovery) {
    var norm := Normalize(cwd, root, sel);
    && (r == Fatal(InvalidRoot) <==> norm.None?)
    && (r == Fatal(NoSelector) <==> norm.Some? && NoSelection(norm.value.sel))
    && (r.Discovered? && norm.Some? ==>
          && Sorted(r.paths) && NoDuplicates(r.paths)
          && (forall p :: p in r.paths <==> Chosen(t, broken, m, cwd, norm.value, p))
          && (forall x :: x in r.issues <==> DiscoveryIssue(t, broken, m, cwd, norm.value, x)))
  }

  /** Discover. */
  method Discover(t: Tree, broken: set<Path>, m: Matcher, cwd: Option<Path>, root: Path, sel: Selector)
    returns (r: Discovery)
    ensures Describes(t, broken, m, cwd, root, sel, r)
  {
    var norm := Normalize(cwd, root, sel);
    if norm.None? {
      return Fatal(InvalidRoot);
    }
    var n := norm.value;
    if n.sel.glob == "" && n.sel.ext == "" && |n.sel.files| == 0 {
      return Fatal(NoSelector);
    }
    var resultSet, errs := Expand(t, broken, m, cwd, n);
    var sorted := Arrange(m, n.root, resultSet, n.sel.exclude);
    r := Discovered(sorted, errs);
  }

  // -----------------------------------------------------------------------
  // Properties

  /** expandFiles keeps exactly the named files that resolve to a regular
      file. */
  lemma {:induction false} FilesOutMembers(t: Tree, broken: set<Path>, cwd: Option<Path>, root: Path, files: seq<string>, p: Path)
    ensures p in FilesOut(t, broken, cwd, root, files)
        <==> IsRegular(t, broken, p) && exists f | f in files :: ToAbsUnderRoot(cwd, root, f) == Some(p)
  {
    if files != [] {
      var init := files[..|files| - 1];
      var last := files[|files| - 1];
      FilesOutMembers(t, broken, cwd, root, init, p);
      assert files == init + [last];
      if ToAbsUnderRoot(cwd, root, last) == Some(p) && IsRegular(t, broken, p) {
        assert p in FilesOut(t, broken, cwd, root, files);
      }
    }
  }

  /** Under an absolute root no named file produces an error: a missing
      or non-regular file is dropped silently. */
  lemma {:induction false} FilesNeverFail(cwd: Option<Path>, root: Path, files: seq<string>)
    requires IsAbs(root)
    ensures FilesIssues(cwd, root, files) == []
  {
    if files != [] {
      FilesNeverFail(cwd, root, files[..|files| - 1]);
    }
  }

  /** Every selected path is a regular file of the tree, never a symlink or
      a directory, and is absolute. */
  lemma SelectedAreRegular(t: Tree, broken: set<Path>, m: Matcher, cwd: Option<Path>, n: Normalized, p: Path)
    requires Rooted(t)
    requires Selected(t, broken, m, cwd, n, p)
    ensures p in t && t[p].kind == Regular && IsAbs(p)
  {
    if |n.sel.files| > 0 && p in FilesOut(t, broken, cwd, n.root, n.sel.files) {
      FilesOutMembers(t, broken, cwd, n.root, n.sel.files, p);
    } else if n.sel.glob != "" && p in GlobOut(t, broken, m, cwd, n.root, n.sel.glob) {
      var q :| q in Glob(t, m, GlobPattern(n.root, n.sel.glob)) && IsRegular(t, broken, q) && AbsOrEmpty(cwd, q) == p;
      assert IsAbs(q);
    } else {
      var q :| q in Visits(t, broken, n.root) && WalkHit(t, q, Target(n.sel.ext)) && Abs(cwd, q).Some? && Abs(cwd, q).value == p;
      assert IsAbs(q);
    }
  }

  /** The extension "." is empty once normalized, so it selects nothing
      and, alone, is the missing-selector error. */
  lemma {:induction false} DotExtIsNoSelector(cwd: Option<Path>, root: Path, exclude: seq<string>)
    requires Normalize(cwd, root, Selector("", ".", [], exclude)).Some?
    ensures NoSelection(Normalize(cwd, root, Selector("", ".", [], exclude)).value.sel)
  {
    assert HasPrefix(".", ".");
  }

  /** Extensions compare without case and without their dot. */
  lemma ExampleExtIgnoresCase()
    ensures ExtMatches("/r/b.TXT", Target(".txt"))
  {
    var b := "/r/b.TXT";
    assert b[7] == 'T' && b[6] == 'X' && b[5] == 'T' && b[4] == '.';
    assert ExtFrom(b, 8) == ExtFrom(b, 5) == b[4..];
    assert Target(".txt") == "txt";
  }

  /** A hidden file's whole name after the dot is its extension. */
  lemma ExampleHiddenFileExt()
    ensures ExtMatches("/r/.env", Target("env"))
  {
    var env := "/r/.env";
    assert env[6] == 'v' && env[5] == 'n' && env[4] == 'e' && env[3] == '.';
    assert ExtFrom(env, 7) == ExtFrom(env, 4) == env[3..];
  }

  /** Another extension does not match. */
  lemma ExampleOtherExt()
    ensures !ExtMatches("/r/a.md", Target("txt"))
  {
    var md := "/r/a.md";
    assert md[6] == 'd' && md[5] == 'm' && md[4] == '.';
    assert ExtFrom(md, 7) == ExtFrom(md, 5) == md[4..];
  }

  /** A directory that cannot be listed is reported, and nothing under it
      is selected. */
  lemma ExampleUnlistableDirectory(cwd: Option<Path>)
    ensures var t := map["/r" := Entry(Directory, "", 0x1ed, true),
                         "/r/locked" := Entry(Directory, "", 0x0, false),
                         "/r/locked/x.txt" := Entry(Regular, "x", 0x1a4, true)];
            && ExtIssue(t, {}, cwd, "/r", "txt", WalkFailed("/r/locked"))
            && "/r/locked/x.txt" !in ExtOut(t, {}, cwd, "/r", "txt")
  {
    var t := map["/r" := Entry(Directory, "", 0x1ed, true),
                 "/r/locked" := Entry(Directory, "", 0x0, false),
                 "/r/locked/x.txt" := Entry(Regular, "x", 0x1a4, true)];
    var locked: Path := "/r/locked";
    var x: Path := "/r/locked/x.txt";
    assert locked[2] == '/' && locked[..2] == "/r";
    assert LastSlash(locked) == 2;
    assert Reached(t, {}, "/r", locked);
    assert x[9] == '/' && x[..9] == locked;
    assert LastSlash(x) == 9;
    assert !Reached(t, {}, "/r", x);
  }

  /** A malformed glob is reported while the explicit files are still
      selected. */
  lemma ExampleInvalidGlob(p: Path)
    ensures var t := map["/r" := Entry(Directory, "", 0x1ed, true), "/r/a.txt" := Entry(Regular, "a", 0x1a4, true)];
            var m := Matcher(pat => pat == "/r/[", (pat, name) => false);
            var n := Normalized("/r", Selector("[", "", ["a.txt"], []));
            && (Chosen(t, {}, m, None, n, p) <==> p == "/r/a.txt")
            && DiscoveryIssue(t, {}, m, None, n, GlobFailed("/r/["))
  {
    var t := map["/r" := Entry(Directory, "", 0x1ed, true), "/r/a.txt" := Entry(Regular, "a", 0x1a4, true)];
    var files := ["a.txt"];
    assert files[..0] == [];
    assert Paths.Join("/r", "a.txt") == "/r/a.txt";
    assert Paths.Join("/r", "[") == "/r/[";
    assert FilesOut(t, {}, None, "/r", files) == ["/r/a.txt"];
  }
}
