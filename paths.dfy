/** The parts of Go's `path/filepath` package that the tool relies on, for
    slash-separated paths. `filepath.Clean` is not modelled: paths are taken
    to be clean already, apart from the "." that `Abs` resolves. */
module Paths {
  import opened Wrappers
  import opened Strings

  type Path = string

  /** filepath.IsAbs. */
  predicate IsAbs(p: Path) {
    |p| > 0 && p[0] == '/'
  }

  /** filepath.Join of two elements (without cleaning). */
  function Join(a: Path, b: Path): (r: Path)
    ensures IsAbs(a) ==> IsAbs(r)
  {
    if a == "" then b
    else if b == "" then a
    else if a[|a| - 1] == '/' then a + b
    else a + "/" + b
  }

  /** filepath.Abs with the process working directory `cwd`; `None` when the
      working directory cannot be determined and `p` is relative. */
  function Abs(cwd: Option<Path>, p: Path): (r: Option<Path>)
    ensures IsAbs(p) ==> r == Some(p)
    ensures r.None? <==> !IsAbs(p) && cwd.None?
  {
    if IsAbs(p) then Some(p)
    else if cwd.None? then None
    else if p == "." then Some(cwd.value)
    else Some(Join(cwd.value, p))
  }

  /** Index of the last '/' in `p`, or -1. */
  function LastSlash(p: string): (k: int)
    ensures -1 <= k < |p|
    ensures k >= 0 ==> p[k] == '/'
    ensures forall j :: k < j < |p| ==> p[j] != '/'
  {
    if |p| == 0 then -1
    else if p[|p| - 1] == '/' then |p| - 1
    else LastSlash(p[..|p| - 1])
  }

  function StripTrailingSlashes(p: string): (r: string)
    ensures |r| <= |p| && r == p[..|r|]
    ensures r == "" || r[|r| - 1] != '/'
  {
    if |p| > 0 && p[|p| - 1] == '/' then StripTrailingSlashes(p[..|p| - 1]) else p
  }

  /** filepath.Base: the last element, trailing slashes removed. */
  function Base(p: Path): (b: string)
    ensures b != ""
  {
    if p == "" then "."
    else
      var q := StripTrailingSlashes(p);
      if q == "" then "/" else q[LastSlash(q) + 1..]
  }

  /** filepath.Dir: everything before the last element. */
  function Dir(p: Path): (d: Path)
    ensures IsAbs(p) ==> IsAbs(d)
  {
    var k := LastSlash(p);
    if k < 0 then "." else if k == 0 then "/" else p[..k]
  }

  /** Scans `p[..i]` backwards for the last '.' of the final element;
      `p[i..]` holds neither '.' nor '/'. */
  function ExtFrom(p: Path, i: nat): (e: string)
    requires i <= |p|
    requires forall j :: i <= j < |p| ==> p[j] != '.' && p[j] != '/'
    ensures e != "" ==> HasSuffix(p, e) && e[0] == '.'
    ensures forall j :: 0 < j < |e| ==> e[j] != '.' && e[j] != '/'
    ensures e == "" ==> forall j :: LastSlash(p) < j < |p| ==> p[j] != '.'
  {
    if i == 0 then ""
    else if p[i - 1] == '/' then ""
    else if p[i - 1] == '.' then p[i - 1..]
    else ExtFrom(p, i - 1)
  }

  /** filepath.Ext: the suffix of `p` starting at the final '.' of its last
      element, or "" when that element has no '.'. */
  function Ext(p: Path): (e: string)
    ensures e != "" ==> HasSuffix(p, e) && e[0] == '.'
    ensures forall j :: 0 < j < |e| ==> e[j] != '.' && e[j] != '/'
    ensures e == "" ==> forall j :: LastSlash(p) < j < |p| ==> p[j] != '.'
  {
    ExtFrom(p, |p|)
  }

  /** The non-empty elements of a slash-separated path. */
  function Elements(p: Path): seq<string>
  {
    FilterNonEmpty(Split(p, "/"))
  }

  function FilterNonEmpty(xs: seq<string>): seq<string>
  {
    if xs == [] then []
    else (if xs[0] == "" then [] else [xs[0]]) + FilterNonEmpty(xs[1..])
  }

  function CommonPrefixLength(a: seq<string>, b: seq<string>): (k: nat)
    ensures k <= |a| && k <= |b|
  {
    if a == [] || b == [] || a[0] != b[0] then 0
    else 1 + CommonPrefixLength(a[1..], b[1..])
  }

  function Repeat(x: string, n: nat): (r: seq<string>)
    ensures |r| == n && (n > 0 ==> r[0] == x)
  {
    if n == 0 then [] else [x] + Repeat(x, n - 1)
  }

  /** filepath.Rel for two absolute, clean paths: the path of `target`
      relative to `base`, climbing with ".." where needed; "." for the
      base itself, and never empty. */
  function Rel(base: Path, target: Path): (r: Path)
    ensures r != ""
  {
    var b := Elements(base);
    var t := Elements(target);
    var k := CommonPrefixLength(b, t);
    var parts := Repeat("..", |b| - k) + t[k..];
    if parts == [] then "."
    else
      assert parts[0] != "" by {
        if |b| - k == 0 {
          NonEmptyElements(FilterNonEmpty(Split(target, "/")), Split(target, "/"), k);
          assert parts[0] == t[k];
        }
      }
      JoinStartsWithFirst(parts, "/");
      Strings.Join(parts, "/")
  }

  /** No element of a path is empty. */
  lemma {:induction false} NonEmptyElements(r: seq<string>, xs: seq<string>, i: nat)
    requires r == FilterNonEmpty(xs) && i < |r|
    ensures r[i] != ""
    decreases |xs|
  {
    if xs[0] == "" {
      NonEmptyElements(r, xs[1..], i);
    } else if i > 0 {
      NonEmptyElements(r[1..], xs[1..], i - 1);
    }
  }

  /** Elements shared at the front of both lists are the common prefix. */
  lemma {:induction false} CommonPrefixOfExtension(a: seq<string>, xs: seq<string>)
    ensures CommonPrefixLength(a, a + xs) == |a|
  {
    if a != [] {
      assert (a + xs)[0] == a[0];
      assert (a + xs)[1..] == a[1..] + xs;
      CommonPrefixOfExtension(a[1..], xs);
    }
  }

  /** A path below `base` is reached by its elements past the base's; the
      base itself is ".". */
  lemma RelBelow(base: Path, target: Path, xs: seq<string>)
    requires Elements(target) == Elements(base) + xs
    ensures Rel(base, target) == if xs == [] then "." else Strings.Join(xs, "/")
  {
    var b := Elements(base);
    CommonPrefixOfExtension(b, xs);
    assert Elements(target)[|b|..] == xs;
    assert Repeat("..", 0) + xs == xs;
  }
}
