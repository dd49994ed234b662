/** The parts of Go's `strings`, `sort` and `fmt` packages that the tool
    relies on, modelled over `seq<char>`.

    Go compares and slices strings by byte; here the unit is `char`, which
    agrees with the byte view for the ASCII patterns, separators and newlines
    the tool uses. */
module Strings {

  // ---------------------------------------------------------------------
  // Prefixes, suffixes, occurrences
  // ---------------------------------------------------------------------

  predicate HasPrefix(s: string, p: string) {
    |p| <= |s| && s[..|p|] == p
  }

  predicate HasSuffix(s: string, p: string) {
    |p| <= |s| && s[|s| - |p|..] == p
  }

  /** strings.TrimPrefix: removes one leading copy of `p`, if present. */
  function TrimPrefix(s: string, p: string): (r: string)
    ensures HasPrefix(s, p) ==> s == p + r
    ensures !HasPrefix(s, p) ==> r == s
  {
    if HasPrefix(s, p) then s[|p|..] else s
  }

  /** strings.TrimSuffix: removes one trailing copy of `p`, if present. */
  function TrimSuffix(s: string, p: string): (r: string)
    ensures HasSuffix(s, p) ==> s == r + p
    ensures !HasSuffix(s, p) ==> r == s
  {
    if HasSuffix(s, p) then s[..|s| - |p|] else s
  }

  /** `p` occurs in `s` starting at index `i`. */
  predicate OccursAt(s: string, p: string, i: int) {
    0 <= i && i + |p| <= |s| && s[i..i + |p|] == p
  }

  /** strings.Contains. */
  predicate Contains(s: string, p: string) {
    exists i | 0 <= i <= |s| :: OccursAt(s, p, i)
  }

  // ---------------------------------------------------------------------
  // Split, Join, Count, ReplaceAll (non-empty separator)
  // ---------------------------------------------------------------------

  /** strings.Split for a non-empty separator: the pieces between the
      non-overlapping occurrences of `sep`, found left to right. */
  function Split(s: string, sep: string): (parts: seq<string>)
    requires sep != ""
    ensures |parts| >= 1
    decreases |s|
  {
    if |s| < |sep| then [s]
    else if HasPrefix(s, sep) then [""] + Split(s[|sep|..], sep)
    else
      var rest := Split(s[1..], sep);
      [[s[0]] + rest[0]] + rest[1..]
  }

  /** Every character of a piece comes from the split text. */
  lemma {:induction false} SplitPiecesWithin(s: string, sep: string)
    requires sep != ""
    ensures forall i, c | 0 <= i < |Split(s, sep)| && c in Split(s, sep)[i] :: c in s
    decreases |s|
  {
    var parts := Split(s, sep);
    if |s| < |sep| {
    } else if HasPrefix(s, sep) {
      SplitPiecesWithin(s[|sep|..], sep);
      forall i, c | 0 <= i < |parts| && c in parts[i]
        ensures c in s
      {
        assert i > 0;
        assert parts[i] == Split(s[|sep|..], sep)[i - 1];
        assert c in s[|sep|..];
      }
    } else {
      var rest := Split(s[1..], sep);
      SplitPiecesWithin(s[1..], sep);
      forall i, c | 0 <= i < |parts| && c in parts[i]
        ensures c in s
      {
        if i == 0 {
          if c != s[0] {
            assert c in rest[0];
            assert c in s[1..];
          }
        } else {
          assert parts[i] == rest[i];
          assert c in s[1..];
        }
      }
    }
  }

  /** With a one-character separator, a trailing separator adds one empty
      final piece. */
  lemma {:induction false} SplitAppendSeparator(s: string, sep: string)
    requires |sep| == 1
    ensures Split(s + sep, sep) == Split(s, sep) + [""]
    decreases |s|
  {
    var t := s + sep;
    if s == [] {
      assert t == sep;
      assert HasPrefix(t, sep);
      assert t[|sep|..] == [];
    } else if HasPrefix(s, sep) {
      assert HasPrefix(t, sep) by { assert t[..1] == s[..1]; }
      assert t[|sep|..] == s[1..] + sep;
      SplitAppendSeparator(s[1..], sep);
    } else {
      assert !HasPrefix(t, sep) by { assert t[..1] == s[..1]; }
      assert t[1..] == s[1..] + sep;
      SplitAppendSeparator(s[1..], sep);
    }
  }

  /** Text free of the separator's first character is one piece. */
  lemma {:induction false} SplitFree(x: string, sep: string)
    requires sep != "" && sep[0] !in x
    ensures Split(x, sep) == [x]
    decreases |x|
  {
    if |x| >= |sep| {
      assert !HasPrefix(x, sep) by { assert x[..|sep|][0] == x[0]; }
      SplitFree(x[1..], sep);
      assert [x[0]] + x[1..] == x;
    }
  }

  /** A leading piece free of the separator's first character, then the
      separator, splits off as the first piece. */
  lemma {:induction false} SplitFreePrefix(x: string, z: string, sep: string)
    requires sep != "" && sep[0] !in x
    ensures Split(x + sep + z, sep) == [x] + Split(z, sep)
    decreases |x|
  {
    var s := x + sep + z;
    if x == [] {
      assert HasPrefix(s, sep) by { assert s[..|sep|] == sep; }
      assert s[|sep|..] == z;
    } else {
      assert !HasPrefix(s, sep) by { assert s[..|sep|][0] == x[0]; }
      assert s[1..] == x[1..] + sep + z;
      SplitFreePrefix(x[1..], z, sep);
      assert [x[0]] + x[1..] == x;
    }
  }

  /** Pieces free of the separator's first character, joined by it, split
      back apart. */
  lemma SplitThree(x: string, y: string, z: string, sep: string)
    requires sep != "" && sep[0] !in x && sep[0] !in y && sep[0] !in z
    ensures Split(x + sep + y + sep + z, sep) == [x, y, z]
  {
    var yz := y + sep + z;
    SplitFree(z, sep);
    SplitFreePrefix(y, z, sep);
    assert Split(yz, sep) == [y, z];
    assert x + sep + y + sep + z == x + sep + yz;
    SplitFreePrefix(x, yz, sep);
  }

  /** strings.Join. */
  function Join(parts: seq<string>, sep: string): string
  {
    if |parts| == 0 then ""
    else if |parts| == 1 then parts[0]
    else parts[0] + sep + Join(parts[1..], sep)
  }

  /** strings.Count for a non-empty separator: the number of
      non-overlapping occurrences, counted left to right. */
  function Count(s: string, sep: string): (n: nat)
    requires sep != ""
    ensures n * |sep| <= |s|
    decreases |s|
  {
    if |s| < |sep| then 0
    else if HasPrefix(s, sep) then 1 + Count(s[|sep|..], sep)
    else Count(s[1..], sep)
  }

  /** strings.ReplaceAll for a non-empty pattern: every non-overlapping
      occurrence, found left to right, is replaced by `repl`. */
  function ReplaceAll(s: string, sep: string, repl: string): (r: string)
    requires sep != ""
    ensures sep[0] !in s ==> r == s
    decreases |s|
  {
    if |s| < |sep| then s
    else if HasPrefix(s, sep) then repl + ReplaceAll(s[|sep|..], sep, repl)
    else [s[0]] + ReplaceAll(s[1..], sep, repl)
  }

  /** Prepending to the first piece prepends to the joined string. */
  lemma {:induction false} JoinPrependFirst(x: string, parts: seq<string>, sep: string)
    requires |parts| >= 1
    ensures Join([x + parts[0]] + parts[1..], sep) == x + Join(parts, sep)
  {
    var q := [x + parts[0]] + parts[1..];
    if |parts| > 1 {
      assert q[1..] == parts[1..];
    }
  }

  /** Joining the pieces of a split with the same separator gives back the
      original string. */
  lemma {:induction false} SplitJoinRoundTrip(s: string, sep: string)
    requires sep != ""
    ensures Join(Split(s, sep), sep) == s
    decreases |s|
  {
    if |s| < |sep| {
    } else if HasPrefix(s, sep) {
      var rest := Split(s[|sep|..], sep);
      var parts := [""] + rest;
      assert Split(s, sep) == parts;
      SplitJoinRoundTrip(s[|sep|..], sep);
      assert parts[0] == "" && parts[1..] == rest && |parts| >= 2;
      assert Join(parts, sep) == "" + sep + Join(rest, sep);
      assert s == sep + s[|sep|..];
    } else {
      var rest := Split(s[1..], sep);
      assert Split(s, sep) == [[s[0]] + rest[0]] + rest[1..];
      SplitJoinRoundTrip(s[1..], sep);
      JoinPrependFirst([s[0]], rest, sep);
      assert s == [s[0]] + s[1..];
    }
  }

  /** A join begins with its first piece. */
  lemma JoinStartsWithFirst(parts: seq<string>, sep: string)
    requires |parts| >= 1
    ensures HasPrefix(Join(parts, sep), parts[0])
  {
    if |parts| > 1 {
      assert Join(parts, sep) == parts[0] + (sep + Join(parts[1..], sep));
    }
  }

  /** No piece of a split contains the separator: every occurrence in the
      text is cut. */
  lemma {:induction false} PiecesFree(s: string, sep: string)
    requires sep != ""
    ensures forall i | 0 <= i < |Split(s, sep)| :: !Contains(Split(s, sep)[i], sep)
    decreases |s|
  {
    var parts := Split(s, sep);
    if |s| < |sep| {
      assert !Contains(s, sep);
    } else if HasPrefix(s, sep) {
      var rest := Split(s[|sep|..], sep);
      PiecesFree(s[|sep|..], sep);
      assert !Contains("", sep);
      forall i | 0 <= i < |parts|
        ensures !Contains(parts[i], sep)
      {
        if i > 0 {
          assert parts[i] == rest[i - 1];
        }
      }
    } else {
      var rest := Split(s[1..], sep);
      PiecesFree(s[1..], sep);
      assert !Contains([s[0]] + rest[0], sep) by {
        FirstPieceFree(s, sep, rest);
      }
      forall i | 0 <= i < |parts|
        ensures !Contains(parts[i], sep)
      {
        if i > 0 {
          assert parts[i] == rest[i];
        }
      }
    }
  }

  /** The first piece of a text that does not start with the separator:
      its first character, then the first piece of the rest. */
  lemma FirstPieceFree(s: string, sep: string, rest: seq<string>)
    requires sep != "" && |s| >= 1 && !HasPrefix(s, sep)
    requires rest == Split(s[1..], sep) && !Contains(rest[0], sep)
    ensures !Contains([s[0]] + rest[0], sep)
  {
    var x := [s[0]] + rest[0];
    SplitJoinRoundTrip(s[1..], sep);
    JoinStartsWithFirst(rest, sep);
    assert x == s[..|x|];
    forall i | 0 <= i <= |x| && OccursAt(x, sep, i)
      ensures false
    {
      if i > 0 {
        OccursInHead(x, sep, i);
      }
    }
  }

  /** An occurrence past the first character is an occurrence in the tail. */
  lemma OccursInHead(s: string, p: string, j: int)
    requires j > 0 && OccursAt(s, p, j)
    ensures OccursAt(s[1..], p, j - 1)
  {
    assert s[1..][j - 1..j - 1 + |p|] == s[j..j + |p|];
  }

  /** Split cuts at the leftmost occurrence: no occurrence of `sep` starts
      inside the first piece. */
  lemma {:induction false} SplitFirstCutLeftmost(s: string, sep: string)
    requires sep != ""
    ensures forall j | 0 <= j < |Split(s, sep)[0]| :: !OccursAt(s, sep, j)
    decreases |s|
  {
    if |s| >= |sep| && !HasPrefix(s, sep) {
      var rest := Split(s[1..], sep);
      SplitFirstCutLeftmost(s[1..], sep);
      assert |Split(s, sep)[0]| == 1 + |rest[0]|;
      forall j | 0 < j < 1 + |rest[0]| && OccursAt(s, sep, j)
        ensures OccursAt(s[1..], sep, j - 1)
      {
        OccursInHead(s, sep, j);
      }
    }
  }

  /** No occurrence of `sep` starts strictly inside a piece: reading the
      text from the start of piece `i` on, the first occurrence is the one
      that ends the piece. With the round trip this fixes every cut, so on
      "aaa" with "aa" the pieces are ["", "a"] and not ["a", ""]. */
  lemma {:induction false} SplitCutsLeftmost(s: string, sep: string)
    requires sep != ""
    ensures forall i, j | 0 <= i < |Split(s, sep)| && 0 <= j < |Split(s, sep)[i]| ::
      !OccursAt(Join(Split(s, sep)[i..], sep), sep, j)
    decreases |s|
  {
    var parts := Split(s, sep);
    forall j | 0 <= j < |parts[0]|
      ensures !OccursAt(Join(parts[0..], sep), sep, j)
    {
      SplitFirstCutLeftmost(s, sep);
      SplitJoinRoundTrip(s, sep);
      assert parts[0..] == parts;
    }
    if |s| < |sep| {
    } else if HasPrefix(s, sep) {
      var rest := Split(s[|sep|..], sep);
      SplitCutsLeftmost(s[|sep|..], sep);
      assert parts == [""] + rest;
      forall i, j | 0 < i < |parts| && 0 <= j < |parts[i]|
        ensures !OccursAt(Join(parts[i..], sep), sep, j)
      {
        assert parts[i..] == rest[i - 1..];
      }
    } else {
      var rest := Split(s[1..], sep);
      SplitCutsLeftmost(s[1..], sep);
      SplitStep(s, sep);
      forall i, j | 0 < i < |parts| && 0 <= j < |parts[i]|
        ensures !OccursAt(Join(parts[i..], sep), sep, j)
      {
        assert parts[i..] == rest[i..];
      }
    }
  }

  /** A text is a single piece exactly when `sep` does not occur in it. */
  lemma SplitWithout(s: string, sep: string)
    requires sep != ""
    ensures |Split(s, sep)| == 1 <==> !Contains(s, sep)
  {
    var parts := Split(s, sep);
    SplitFirstCutLeftmost(s, sep);
    SplitJoinRoundTrip(s, sep);
    if |parts| > 1 {
      assert s == parts[0] + sep + Join(parts[1..], sep);
      assert OccursAt(s, sep, |parts[0]|);
    }
  }

  /** One step of Split past a character that does not start `sep`. */
  lemma SplitStep(s: string, sep: string)
    requires sep != "" && |s| >= |sep| && !HasPrefix(s, sep)
    ensures |Split(s, sep)| == |Split(s[1..], sep)|
    ensures Split(s, sep)[0] == [s[0]] + Split(s[1..], sep)[0]
    ensures Split(s, sep)[1..] == Split(s[1..], sep)[1..]
  {
  }


  /** The occurrence count is one less than the number of split pieces. */
  lemma {:induction false} CountIsPiecesMinusOne(s: string, sep: string)
    requires sep != ""
    ensures Count(s, sep) == |Split(s, sep)| - 1
    decreases |s|
  {
    if |s| < |sep| {
    } else if HasPrefix(s, sep) {
      CountIsPiecesMinusOne(s[|sep|..], sep);
    } else {
      CountIsPiecesMinusOne(s[1..], sep);
    }
  }

  /** Replacing every occurrence is joining the split pieces with the
      replacement: every character outside an occurrence is kept verbatim
      and in order. */
  lemma {:induction false} ReplaceAllJoinsPieces(s: string, sep: string, repl: string)
    requires sep != ""
    ensures ReplaceAll(s, sep, repl) == Join(Split(s, sep), repl)
    decreases |s|
  {
    if |s| < |sep| {
    } else if HasPrefix(s, sep) {
      var rest := Split(s[|sep|..], sep);
      ReplaceAllJoinsPieces(s[|sep|..], sep, repl);
      assert ([""] + rest)[1..] == rest;
      assert ReplaceAll(s, sep, repl) == repl + ReplaceAll(s[|sep|..], sep, repl);
    } else {
      var rest := Split(s[1..], sep);
      ReplaceAllJoinsPieces(s[1..], sep, repl);
      JoinPrependFirst([s[0]], rest, repl);
      assert Split(s, sep) == [[s[0]] + rest[0]] + rest[1..];
      assert ReplaceAll(s, sep, repl) == [s[0]] + ReplaceAll(s[1..], sep, repl);
    }
  }

  /** Replacing a pattern by itself changes nothing. */
  lemma ReplaceBySelfIsIdentity(s: string, sep: string)
    requires sep != ""
    ensures ReplaceAll(s, sep, sep) == s
  {
    ReplaceAllJoinsPieces(s, sep, sep);
    SplitJoinRoundTrip(s, sep);
  }

  /** An occurrence in the tail is an occurrence in the whole string. */
  lemma OccursInTail(s: string, p: string, k: nat, i: int)
    requires k <= |s| && OccursAt(s[k..], p, i)
    ensures OccursAt(s, p, i + k)
  {
    assert s[k..][i..i + |p|] == s[i + k..i + k + |p|];
  }

  /** The count is zero exactly when the pattern does not occur. */
  lemma {:induction false} CountZeroIffAbsent(s: string, sep: string)
    requires sep != ""
    ensures Count(s, sep) == 0 <==> !Contains(s, sep)
    decreases |s|
  {
    if |s| < |sep| {
      assert forall i :: !OccursAt(s, sep, i);
    } else if HasPrefix(s, sep) {
      assert OccursAt(s, sep, 0);
    } else {
      CountZeroIffAbsent(s[1..], sep);
      if Contains(s[1..], sep) {
        var i :| OccursAt(s[1..], sep, i);
        OccursInTail(s, sep, 1, i);
      } else {
        forall i | OccursAt(s, sep, i) ensures false {
          if i > 0 {
            assert s[1..][i - 1..i - 1 + |sep|] == s[i..i + |sep|];
            assert OccursAt(s[1..], sep, i - 1);
          }
        }
      }
    }
  }

  /** With no occurrence, replacing is the identity. */
  lemma {:induction false} NoOccurrenceNoChange(s: string, sep: string, repl: string)
    requires sep != "" && Count(s, sep) == 0
    ensures ReplaceAll(s, sep, repl) == s
    decreases |s|
  {
    if |s| >= |sep| && !HasPrefix(s, sep) {
      NoOccurrenceNoChange(s[1..], sep, repl);
      assert s == [s[0]] + s[1..];
    }
  }

  lemma MultiplyOneMore(c: int, d: int)
    ensures (1 + c) * d == d + c * d
  {
  }

  /** Each replaced occurrence changes the length by |repl| - |sep|. */
  lemma {:induction false} ReplaceAllLength(s: string, sep: string, repl: string)
    requires sep != ""
    ensures |ReplaceAll(s, sep, repl)| == |s| + Count(s, sep) * (|repl| - |sep|)
    decreases |s|
  {
    if |s| < |sep| {
    } else if HasPrefix(s, sep) {
      var t := s[|sep|..];
      ReplaceAllLength(t, sep, repl);
      var c, d := Count(t, sep), |repl| - |sep|;
      assert |ReplaceAll(s, sep, repl)| == |repl| + |ReplaceAll(t, sep, repl)|;
      assert Count(s, sep) == 1 + c;
      MultiplyOneMore(c, d);
    } else {
      ReplaceAllLength(s[1..], sep, repl);
    }
  }

  // ---------------------------------------------------------------------
  // ASCII case folding (strings.ToLower, strings.EqualFold)
  // ---------------------------------------------------------------------

  function LowerChar(c: char): char {
    if 'A' <= c <= 'Z' then (c as int + 32) as char else c
  }

  /** strings.ToLower, restricted to ASCII letters. */
  function ToLower(s: string): (r: string)
    ensures |r| == |s|
    ensures forall i :: 0 <= i < |s| ==> r[i] == LowerChar(s[i])
  {
    seq(|s|, i requires 0 <= i < |s| => LowerChar(s[i]))
  }

  /** strings.EqualFold, restricted to ASCII letters. */
  predicate EqualFold(a: string, b: string) {
    ToLower(a) == ToLower(b)
  }

  // ---------------------------------------------------------------------
  // Lexicographic order and sort.Strings
  // ---------------------------------------------------------------------

  /** Go's `<=` on strings: lexicographic, a proper prefix first. */
  predicate LessEq(a: string, b: string)
    decreases |a|
  {
    |a| == 0 || (|b| > 0 && (a[0] < b[0] || (a[0] == b[0] && LessEq(a[1..], b[1..]))))
  }

  /** Text free of the pattern's first character passes through ReplaceAll
      and Count untouched. */
  lemma {:induction false} FreePrefixPassesThrough(x: string, y: string, sep: string, repl: string)
    requires sep != "" && sep[0] !in x
    ensures ReplaceAll(x + y, sep, repl) == x + ReplaceAll(y, sep, repl)
    ensures Count(x + y, sep) == Count(y, sep)
    decreases |x|
  {
    if x == [] {
      assert x + y == y;
    } else {
      var s := x + y;
      var x1 := x[1..];
      assert s[0] == x[0] && s[1..] == x1 + y;
      SkipsFirstChar(s, sep, repl);
      FreePrefixPassesThrough(x1, y, sep, repl);
      assert x == [x[0]] + x1;
    }
  }

  /** A first character that cannot start the pattern is copied, and the
      rest is handled on its own. */
  lemma SkipsFirstChar(s: string, sep: string, repl: string)
    requires sep != "" && |s| > 0 && s[0] != sep[0]
    ensures ReplaceAll(s, sep, repl) == [s[0]] + ReplaceAll(s[1..], sep, repl)
    ensures Count(s, sep) == Count(s[1..], sep)
  {
    if |s| < |sep| {
      assert [s[0]] + s[1..] == s;
    } else {
      assert !HasPrefix(s, sep) by { assert s[..|sep|][0] == s[0]; }
    }
  }

  /** A leading occurrence is replaced and counted once. */
  lemma LeadingMatch(sep: string, z: string, repl: string)
    requires sep != ""
    ensures ReplaceAll(sep + z, sep, repl) == repl + ReplaceAll(z, sep, repl)
    ensures Count(sep + z, sep) == 1 + Count(z, sep)
  {
    var s := sep + z;
    assert HasPrefix(s, sep) by { assert s[..|sep|] == sep; }
    assert s[|sep|..] == z;
  }

  /** Text free of the pattern's first character holds no occurrence. */
  lemma FreeTextHasNoMatch(y: string, sep: string, repl: string)
    requires sep != "" && sep[0] !in y
    ensures ReplaceAll(y, sep, repl) == y && Count(y, sep) == 0
  {
    FreePrefixPassesThrough(y, [], sep, repl);
    assert y + [] == y;
  }

  lemma {:induction false} LessEqTotal(a: string, b: string)
    ensures LessEq(a, b) || LessEq(b, a)
    decreases |a|
  {
    if |a| > 0 && |b| > 0 && a[0] == b[0] {
      LessEqTotal(a[1..], b[1..]);
    }
  }

  lemma {:induction false} LessEqAntisymmetric(a: string, b: string)
    requires LessEq(a, b) && LessEq(b, a)
    ensures a == b
    decreases |a|
  {
    if |a| > 0 && |b| > 0 {
      LessEqAntisymmetric(a[1..], b[1..]);
      assert a == [a[0]] + a[1..] && b == [b[0]] + b[1..];
    }
  }

  lemma {:induction false} LessEqTransitive(a: string, b: string, c: string)
    requires LessEq(a, b) && LessEq(b, c)
    ensures LessEq(a, c)
    decreases |a|
  {
    if |a| > 0 && |b| > 0 && |c| > 0 && a[0] == b[0] == c[0] {
      LessEqTransitive(a[1..], b[1..], c[1..]);
    }
  }

  predicate Sorted(s: seq<string>) {
    forall i, j :: 0 <= i < j < |s| ==> LessEq(s[i], s[j])
  }

  predicate NoDuplicates<T(==)>(s: seq<T>) {
    forall i, j :: 0 <= i < j < |s| ==> s[i] != s[j]
  }

  /** Inserts `x` into a sorted sequence. */
  function Insert(x: string, s: seq<string>): (r: seq<string>)
    requires Sorted(s)
    ensures Sorted(r)
    ensures multiset(r) == multiset(s) + multiset{x}
  {
    if s == [] then [x]
    else if LessEq(x, s[0]) then
      forall j | 0 <= j < |s| ensures LessEq(x, s[j]) {
        if j > 0 { LessEqTransitive(x, s[0], s[j]); }
      }
      assert multiset([x] + s) == multiset(s) + multiset{x};
      [x] + s
    else
      var rest := Insert(x, s[1..]);
      LessEqTotal(x, s[0]);
      HeadBelowInserted(x, s, rest);
      assert s == [s[0]] + s[1..];
      [s[0]] + rest
  }

  /** The head of a sorted sequence stays below everything once a larger
      element is inserted into its tail. */
  lemma HeadBelowInserted(x: string, s: seq<string>, rest: seq<string>)
    requires Sorted(s) && |s| > 0 && LessEq(s[0], x)
    requires multiset(rest) == multiset(s[1..]) + multiset{x}
    ensures forall k | 0 <= k < |rest| :: LessEq(s[0], rest[k])
  {
    forall k | 0 <= k < |rest| ensures LessEq(s[0], rest[k]) {
      assert rest[k] in multiset(rest);
      if rest[k] != x {
        assert rest[k] in multiset(s[1..]);
        var j :| 0 <= j < |s[1..]| && s[1..][j] == rest[k];
        assert s[j + 1] == rest[k];
      }
    }
  }

  /** sort.Strings: the input in ascending order. */
  function SortStrings(s: seq<string>): (r: seq<string>)
    ensures Sorted(r)
    ensures multiset(r) == multiset(s)
  {
    if s == [] then []
    else
      assert s == [s[0]] + s[1..];
      Insert(s[0], SortStrings(s[1..]))
  }

  lemma {:induction false} DistinctCountsAtMostOne<T>(s: seq<T>, x: T)
    requires NoDuplicates(s)
    ensures multiset(s)[x] <= 1
  {
    if s != [] {
      assert s == [s[0]] + s[1..];
      DistinctCountsAtMostOne(s[1..], x);
      if s[0] == x {
        assert x !in s[1..];
      }
    }
  }

  /** A rearrangement of a duplicate-free sequence is duplicate-free. */
  lemma PermutationKeepsDistinct<T>(a: seq<T>, b: seq<T>)
    requires multiset(a) == multiset(b) && NoDuplicates(a)
    ensures NoDuplicates(b)
  {
    forall i, j | 0 <= i < j < |b| ensures b[i] != b[j] {
      if b[i] == b[j] {
        var x := b[i];
        assert b == b[..j] + b[j..];
        assert x in b[..j] && x in b[j..];
        assert multiset(b)[x] == multiset(b[..j])[x] + multiset(b[j..])[x];
        DistinctCountsAtMostOne(a, x);
      }
    }
  }

  // ---------------------------------------------------------------------
  // Decimal formatting (fmt's %d for non-negative integers)
  // ---------------------------------------------------------------------

  /** The character for the digit `d`. */
  function Digit(d: nat): (c: char)
    requires d < 10
    ensures '0' <= c <= '9' && c as int - '0' as int == d
  {
    ('0' as int + d) as char
  }

  /** The decimal representation of `n`, without leading zeros. */
  function Decimal(n: nat): (r: string)
    ensures |r| >= 1
    ensures forall i :: 0 <= i < |r| ==> '0' <= r[i] <= '9'
  {
    if n < 10 then [Digit(n)] else Decimal(n / 10) + [Digit(n % 10)]
  }

  /** The number a run of decimal digits stands for. */
  function DigitsValue(d: string): nat
    requires forall i :: 0 <= i < |d| ==> '0' <= d[i] <= '9'
  {
    if d == [] then 0 else 10 * DigitsValue(d[..|d| - 1]) + (d[|d| - 1] as int - '0' as int)
  }

  /** `%d` is exact: the digits stand for `n`, with no leading zero. */
  lemma {:induction false} DecimalValue(n: nat)
    ensures DigitsValue(Decimal(n)) == n
    ensures |Decimal(n)| > 1 ==> Decimal(n)[0] != '0'
  {
    var r := Decimal(n);
    if n >= 10 {
      DecimalValue(n / 10);
      assert r[..|r| - 1] == Decimal(n / 10);
      assert r[0] == Decimal(n / 10)[0];
    }
  }

  /** The first numbered backup suffix. */
  lemma DecimalOne()
    ensures Decimal(1) == "1"
  {
    assert Digit(1) == '1';
  }
}
