/** The line-by-line preview (internal/diff): a `--- before` / `+++ after`
    header, then for every line index where the two texts differ a `-`
    line for the old line and a `+` line for the new one, each left out
    when the line is empty. Lines are compared by position only; there is
    no alignment of inserted or deleted lines. */
module Diff {
  import opened Strings

  /** Rendering options. `context` is carried but never read. */
  datatype Options = Options(color: bool, context: int, strictEol: bool)

  /** HasChanges: the two texts differ. */
  predicate HasChanges(before: string, after: string): (r: bool)
    ensures !r <==> |before| == |after| && forall i | 0 <= i < |before| :: before[i] == after[i]
  {
    before != after
  }

  /** The two texts are equal, or exactly one of them ends in "\n" and
      they agree once that one final "\n" is removed. */
  predicate EqualIgnoringFinalNewline(a: string, b: string): (r: bool)
    ensures a == b ==> r
    ensures r ==> TrimSuffix(a, "\n") == TrimSuffix(b, "\n")
  {
    if a == b then true
    else if HasSuffix(a, "\n") && !HasSuffix(b, "\n") then TrimSuffix(a, "\n") == b
    else if HasSuffix(b, "\n") && !HasSuffix(a, "\n") then TrimSuffix(b, "\n") == a
    else false
  }

  const Reset := "\U{1b}[0m"
  const Red := "\U{1b}[31m"
  const Green := "\U{1b}[32m"
  const Header := "--- before\n+++ after\n"

  /** One rendered line without its newline: red for removed, green for
      added, plain when colour is off. */
  function Colorize(prefix: string, line: string, added: bool, color: bool): string {
    if !color then prefix + line
    else if added then Green + prefix + line + Reset
    else Red + prefix + line + Reset
  }

  /** The line at index `i`, or "" past the end (the shorter side is padded). */
  function LineAt(lines: seq<string>, i: nat): string {
    if i < |lines| then lines[i] else ""
  }

  /** What one line index contributes: nothing for equal lines, otherwise
      a `-` line unless the old line is empty and a `+` line unless the new
      line is empty. */
  function LineEdit(br: string, ar: string, color: bool): string {
    if br == ar then "" else RemovedLine(br, color) + AddedLine(ar, color)
  }

  /** The `-` line for an old line, nothing for an empty one. */
  function RemovedLine(br: string, color: bool): string {
    if br != "" then Colorize("-", br, false, color) + "\n" else ""
  }

  /** The `+` line for a new line, nothing for an empty one. */
  function AddedLine(ar: string, color: bool): string {
    if ar != "" then Colorize("+", ar, true, color) + "\n" else ""
  }

  /** The contributions of line indices 0 .. n-1, in order. */
  function Body(bl: seq<string>, al: seq<string>, color: bool, n: nat): string
    decreases n
  {
    if n == 0 then ""
    else Body(bl, al, color, n - 1) + LineEdit(LineAt(bl, n - 1), LineAt(al, n - 1), color)
  }

  function Max(a: nat, b: nat): nat {
    if a < b then b else a
  }

  /** The preview and the changed flag Diff returns for the two texts. */
  function Rendered(before: string, after: string, color: bool, strictEol: bool): (string, bool) {
    if !strictEol && EqualIgnoringFinalNewline(before, after) then ("", false)
    else if before == after then ("", false)
    else
      var bl := Split(before, "\n");
      var al := Split(after, "\n");
      (Header + Body(bl, al, color, Max(|bl|, |al|)), true)
  }

  /** Diff. The context setting plays no part in the result. */
  method Diff(before: string, after: string, opts: Options) returns (out: string, changed: bool)
    ensures (out, changed) == Rendered(before, after, opts.color, opts.strictEol)
  {
    if !opts.strictEol && EqualIgnoringFinalNewline(before, after) {
      return "", false;
    }
    changed := before != after;
    if !changed {
      return "", false;
    }
    var bl := Split(before, "\n");
    var al := Split(after, "\n");
    var body := RenderBody(bl, al, opts.color);
    out := Header + body;
  }

  /** The lines after the header, in the order they are written. */
  method RenderBody(bl: seq<string>, al: seq<string>, color: bool) returns (body: string)
    ensures body == Body(bl, al, color, Max(|bl|, |al|))
  {
    var max := |bl|;
    if |al| > max {
      max := |al|;
    }
    body := "";
    for i := 0 to max
      invariant body == Body(bl, al, color, i)
    {
      var br, ar := "", "";
      if i < |bl| {
        br := bl[i];
      }
      if i < |al| {
        ar := al[i];
      }
      BodyStep(bl, al, color, i);
      body := EmitLine(body, br, ar, color);
    }
  }

  /** Appends the removed and added line for one index, nothing when the
      two lines agree. */
  method EmitLine(body: string, br: string, ar: string, color: bool) returns (r: string)
    ensures r == body + LineEdit(br, ar, color)
  {
    r := body;
    if br == ar {
      return;
    }
    if br != "" {
      r := r + (Colorize("-", br, false, color) + "\n");
    }
    assert r == body + RemovedLine(br, color);
    ghost var mid := r;
    if ar != "" {
      r := r + (Colorize("+", ar, true, color) + "\n");
    }
    assert r == mid + AddedLine(ar, color);
    ConcatAssociative(body, RemovedLine(br, color), AddedLine(ar, color));
  }

  lemma ConcatAssociative(a: string, b: string, c: string)
    ensures (a + b) + c == a + (b + c)
  {
  }

  /** One more line index appends its contribution. */
  lemma BodyStep(bl: seq<string>, al: seq<string>, color: bool, i: nat)
    ensures Body(bl, al, color, i + 1) == Body(bl, al, color, i) + LineEdit(LineAt(bl, i), LineAt(al, i), color)
    ensures LineAt(bl, i) == LineAt(al, i) ==> Body(bl, al, color, i + 1) == Body(bl, al, color, i)
  {
  }

  // -----------------------------------------------------------------------
  // Properties
  // -----------------------------------------------------------------------

  /** The final-newline tolerance, stated without the code's case split:
      equal, or one side is the other plus a single "\n" that the other
      does not already end with. */
  lemma EqualIgnoringFinalNewlineMeaning(a: string, b: string)
    ensures EqualIgnoringFinalNewline(a, b) <==>
      || a == b
      || (a == b + "\n" && !HasSuffix(b, "\n"))
      || (b == a + "\n" && !HasSuffix(a, "\n"))
  {
    if a == b + "\n" {
      assert HasSuffix(a, "\n") by { assert a[|a| - 1..] == "\n"; }
    }
    if b == a + "\n" {
      assert HasSuffix(b, "\n") by { assert b[|b| - 1..] == "\n"; }
    }
  }

  /** A difference is reported exactly when the texts differ and, unless
      strict, they do not differ only by one final newline. The report is
      never raised for texts HasChanges calls equal. */
  lemma ChangedExactly(before: string, after: string, color: bool, strictEol: bool)
    ensures Rendered(before, after, color, strictEol).1 <==>
      HasChanges(before, after) && (strictEol || !EqualIgnoringFinalNewline(before, after))
    ensures strictEol ==> (Rendered(before, after, color, strictEol).1 <==> HasChanges(before, after))
  {
  }

  /** An unchanged pair renders nothing; a changed pair starts with the
      header. */
  lemma OutputShape(before: string, after: string, color: bool, strictEol: bool)
    ensures var (out, changed) := Rendered(before, after, color, strictEol);
      && (!changed ==> out == "")
      && (changed ==> HasPrefix(out, Header) && out != "")
  {
    var (out, changed) := Rendered(before, after, color, strictEol);
    if changed {
      assert out[..|Header|] == Header;
    }
  }

  /** A line index contributes nothing exactly when its two lines agree. */
  lemma LineEditEmptyIff(br: string, ar: string, color: bool)
    ensures LineEdit(br, ar, color) == "" <==> br == ar
  {
  }

  /** The body is empty exactly when every padded line pair agrees. */
  lemma {:induction false} BodyEmptyIff(bl: seq<string>, al: seq<string>, color: bool, n: nat)
    ensures Body(bl, al, color, n) == "" <==> forall i | 0 <= i < n :: LineAt(bl, i) == LineAt(al, i)
    decreases n
  {
    if n > 0 {
      BodyEmptyIff(bl, al, color, n - 1);
      LineEditEmptyIff(LineAt(bl, n - 1), LineAt(al, n - 1), color);
      var prev := Body(bl, al, color, n - 1);
      var last := LineEdit(LineAt(bl, n - 1), LineAt(al, n - 1), color);
      assert Body(bl, al, color, n) == prev + last;
      assert |prev + last| == |prev| + |last|;
    }
  }

  /** Without colour, the body holds only characters of the lines and the
      markup characters `-`, `+` and "\n"; in particular no escape
      character unless the lines carry one. */
  lemma {:induction false} PlainBodyChars(bl: seq<string>, al: seq<string>, n: nat, c: char)
    requires c in Body(bl, al, false, n)
    ensures c == '-' || c == '+' || c == '\n'
         || (exists i | 0 <= i < |bl| :: c in bl[i])
         || (exists i | 0 <= i < |al| :: c in al[i])
    decreases n
  {
    var prev := Body(bl, al, false, n - 1);
    var br, ar := LineAt(bl, n - 1), LineAt(al, n - 1);
    assert Body(bl, al, false, n) == prev + LineEdit(br, ar, false);
    if c in prev {
      PlainBodyChars(bl, al, n - 1, c);
    } else {
      assert c in LineEdit(br, ar, false);
      if c in br {
        assert n - 1 < |bl| && c in bl[n - 1];
      } else if c in ar {
        assert n - 1 < |al| && c in al[n - 1];
      }
    }
  }

  /** With colour off the preview carries no ANSI escape, provided the
      texts themselves carry none. */
  lemma PlainHasNoEscape(before: string, after: string, strictEol: bool)
    requires '\U{1b}' !in before && '\U{1b}' !in after
    ensures '\U{1b}' !in Rendered(before, after, false, strictEol).0
  {
    var (out, changed) := Rendered(before, after, false, strictEol);
    if changed {
      var bl := Split(before, "\n");
      var al := Split(after, "\n");
      RenderedChanged(before, after, false, strictEol);
      PiecesHaveNoEscape(before);
      PiecesHaveNoEscape(after);
      PlainBodyHasNoEscape(bl, al, Max(|bl|, |al|));
      HeaderHasNoEscape(Body(bl, al, false, Max(|bl|, |al|)));
    }
  }

  /** The lines of a text free of escapes are free of escapes. */
  lemma PiecesHaveNoEscape(s: string)
    requires '\U{1b}' !in s
    ensures forall i, c | 0 <= i < |Split(s, "\n")| && c in Split(s, "\n")[i] :: c != '\U{1b}'
  {
    SplitPiecesWithin(s, "\n");
  }

  /** The header adds no escape. */
  lemma HeaderHasNoEscape(body: string)
    requires '\U{1b}' !in body
    ensures '\U{1b}' !in Header + body
  {
  }

  /** A reported change is the header followed by the body of the split
      texts. */
  lemma RenderedChanged(before: string, after: string, color: bool, strictEol: bool)
    ensures var (out, changed) := Rendered(before, after, color, strictEol);
      var bl := Split(before, "\n");
      var al := Split(after, "\n");
      changed ==> out == Header + Body(bl, al, color, Max(|bl|, |al|))
  {
  }

  /** Without colour the body adds no escape character to the lines. */
  lemma PlainBodyHasNoEscape(bl: seq<string>, al: seq<string>, n: nat)
    requires forall i, c | 0 <= i < |bl| && c in bl[i] :: c != '\U{1b}'
    requires forall i, c | 0 <= i < |al| && c in al[i] :: c != '\U{1b}'
    ensures '\U{1b}' !in Body(bl, al, false, n)
  {
    if '\U{1b}' in Body(bl, al, false, n) {
      PlainBodyChars(bl, al, n, '\U{1b}');
    }
  }

  /** One trailing newline more is ignored exactly when the shorter text
      does not already end with a newline: "a" against "a\n" is no change,
      "a\n" against "a\n\n" is one. */
  lemma TrailingNewlineIgnoredOnce(x: string, color: bool)
    ensures !Rendered(x, x + "\n", color, false).1 <==> !HasSuffix(x, "\n")
  {
    EqualIgnoringFinalNewlineMeaning(x, x + "\n");
    assert x != x + "\n" by { assert |x + "\n"| == |x| + 1; }
  }

  /** One extra final newline that is not ignored (strict mode, or the
      shorter text already ends with a newline) is reported as a change
      whose preview is the header alone: the extra empty last line compares
      equal to the padding of the shorter side. */
  lemma ExtraNewlineShowsOnlyHeader(x: string, color: bool, strictEol: bool)
    requires strictEol || HasSuffix(x, "\n")
    ensures Rendered(x, x + "\n", color, strictEol) == (Header, true)
  {
    TrailingNewlineIgnoredOnce(x, color);
    var bl := Split(x, "\n");
    var al := Split(x + "\n", "\n");
    SplitAppendSeparator(x, "\n");
    assert al == bl + [""];
    var n := Max(|bl|, |al|);
    assert n == |bl| + 1;
    forall i | 0 <= i < n
      ensures LineAt(bl, i) == LineAt(al, i)
    {
      if i < |bl| {
        assert al[i] == bl[i];
      }
    }
    BodyEmptyIff(bl, al, color, n);
    assert Header + "" == Header;
  }

  // Worked examples and the text facts they rest on

  /** The lines of the two texts of the empty-line example. */
  lemma EmptyLineSplits()
    ensures Split("a\n\nc", "\n") == ["a", "", "c"]
    ensures Split("a\nb\nc", "\n") == ["a", "b", "c"]
  {
    SplitThree("a", "", "c", "\n");
    assert "a" + "\n" + "" + "\n" + "c" == "a\n\nc";
    SplitThree("a", "b", "c", "\n");
    assert "a" + "\n" + "b" + "\n" + "c" == "a\nb\nc";
  }
  lemma BlankFilledDiffer()
    ensures !EqualIgnoringFinalNewline("a\n\nc", "a\nb\nc")
  {
    EqualIgnoringFinalNewlineMeaning("a\n\nc", "a\nb\nc");
    assert "a\n\nc"[2] != "a\nb\nc"[2];
    assert |"a\n\nc"| != |"a\nb\nc" + "\n"|;
    assert "a\nb\nc"[2] != ("a\n\nc" + "\n")[2];
  }
  /** The body of the empty-line example. */
  lemma EmptyLineBody()
    ensures Body(["a", "", "c"], ["a", "b", "c"], false, 3) == "+b\n"
  {
    var bl: seq<string> := ["a", "", "c"];
    var al: seq<string> := ["a", "b", "c"];
    assert Body(bl, al, false, 1) == "";
    assert Body(bl, al, false, 2) == "+b\n";
  }
  /** An inserted text on a previously empty line shows as a lone `+`
      line; the empty old line gets no `-` line. */
  lemma ExampleEmptyLine()
    ensures Rendered("a\n\nc", "a\nb\nc", false, false) == (Header + "+b\n", true)
  {
    EmptyLineSplits();
    BlankFilledDiffer();
    EmptyLineBody();
    assert "a\n\nc"[2] != "a\nb\nc"[2];
  }
  lemma ColourTexts()
    ensures Split("a", "\n") == ["a"] && Split("b", "\n") == ["b"]
    ensures !EqualIgnoringFinalNewline("a", "b")
  {
    SplitFree("a", "\n");
    SplitFree("b", "\n");
    EqualIgnoringFinalNewlineMeaning("a", "b");
    assert |"a"| != |"b" + "\n"| && |"b"| != |"a" + "\n"|;
  }
  lemma ColourBody()
    ensures Body(["a"], ["b"], true, 1) == (Red + "-a" + Reset + "\n") + (Green + "+b" + Reset + "\n")
  {
    assert "a" != "b";
    assert LineAt(["a"], 0) == "a";
  }
  /** With colour on, the removed line is red and the added line green. */
  lemma ExampleColour()
    ensures Rendered("a", "b", true, false) == (Header + ((Red + "-a" + Reset + "\n") + (Green + "+b" + Reset + "\n")), true)
  {
    ColourTexts();
    ColourBody();
    assert "a" != "b";
  }
}
