/** Literal substitution on one file's content (internal/processor).
    The file read is replaced by its outcome: `Some(content)` or `None` when
    reading failed. Nothing is written back. */
module Processor {
  import opened Wrappers
  import opened Strings

  /** The per-file result record. */
  datatype Substitution = Substitution(
    before: string,
    after: string,
    matches: nat,
    replacements: nat,
    changed: bool)

  datatype SubstError = ReadFailed | BinaryFile

  datatype SubstResult = Done(result: Substitution) | Failed(error: SubstError)

  /** The content holds a NUL character. */
  predicate IsBinary(content: string) {
    '\0' in content
  }

  /** SubstituteLiteralFile with the read already done. */
  function SubstituteLiteral(read: Option<string>, pattern: string, repl: string): (r: SubstResult)
    // failures: exactly an unreadable file or a NUL byte, and nothing is transformed
    ensures r == Failed(ReadFailed) <==> read.None?
    ensures r == Failed(BinaryFile) <==> read.Some? && IsBinary(read.value)
    ensures r.Done? ==> r.result.before == read.value
    // the record's invariants
    ensures r.Done? ==> r.result.replacements == r.result.matches
    ensures r.Done? ==> (r.result.changed <==> r.result.after != r.result.before)
    ensures r.Done? && r.result.matches == 0 ==> r.result.after == r.result.before
    // an empty pattern is a no-op
    ensures r.Done? && pattern == "" ==> r.result.after == r.result.before && r.result.matches == 0
    // otherwise: every non-overlapping occurrence counted and replaced
    ensures r.Done? && pattern != "" ==>
      && r.result.matches == Count(r.result.before, pattern)
      && r.result.after == ReplaceAll(r.result.before, pattern, repl)
  {
    if read.None? then Failed(ReadFailed)
    else if IsBinary(read.value) then Failed(BinaryFile)
    else
      var before := read.value;
      if pattern == "" then Done(Substitution(before, before, 0, 0, false))
      else
        var matches := Count(before, pattern);
        if matches == 0 then
          NoOccurrenceNoChange(before, pattern, repl);
          Done(Substitution(before, before, 0, 0, false))
        else
          var after := ReplaceAll(before, pattern, repl);
          Done(Substitution(before, after, matches, matches, before != after))
  }

  /** No occurrence of the pattern (this includes empty content): the content
      comes back unchanged with zero counts. */
  lemma AbsentPatternLeavesContent(content: string, pattern: string, repl: string)
    requires !IsBinary(content) && !Contains(content, pattern)
    ensures SubstituteLiteral(Some(content), pattern, repl)
         == Done(Substitution(content, content, 0, 0, false))
  {
    if pattern != "" {
      CountZeroIffAbsent(content, pattern);
    }
  }

  /** A pattern that occurs and is replaced by itself is counted but does
      not change the content. */
  lemma SelfReplacementCountsButKeeps(content: string, pattern: string)
    requires !IsBinary(content) && pattern != "" && Contains(content, pattern)
    ensures var r := SubstituteLiteral(Some(content), pattern, pattern);
      r.Done? && r.result.matches > 0 && r.result.replacements > 0 && !r.result.changed
  {
    CountZeroIffAbsent(content, pattern);
    ReplaceBySelfIsIdentity(content, pattern);
  }

  /** The substituted content is the pieces of the original between the
      occurrences (none of which still contains the pattern), joined with
      the replacement, and its length grows by
      |repl| - |pattern| per match. */
  lemma SubstitutionShape(content: string, pattern: string, repl: string)
    requires !IsBinary(content) && pattern != ""
    ensures var r := SubstituteLiteral(Some(content), pattern, repl);
      && r.Done?
      && r.result.after == Strings.Join(Split(content, pattern), repl)
      && content == Strings.Join(Split(content, pattern), pattern)
      && (forall i | 0 <= i < |Split(content, pattern)| :: !Contains(Split(content, pattern)[i], pattern))
      && r.result.matches == |Split(content, pattern)| - 1
      && |r.result.after| == |content| + r.result.matches * (|repl| - |pattern|)
  {
    ReplaceAllJoinsPieces(content, pattern, repl);
    SplitJoinRoundTrip(content, pattern);
    PiecesFree(content, pattern);
    CountIsPiecesMinusOne(content, pattern);
    ReplaceAllLength(content, pattern, repl);
  }

  /** `sep y` with `y` free of the pattern: the one occurrence is replaced. */
  lemma OneOccurrence(sep: string, y: string, repl: string)
    requires sep != "" && sep[0] !in y
    ensures ReplaceAll(sep + y, sep, repl) == repl + y
    ensures Count(sep + y, sep) == 1
  {
    LeadingMatch(sep, y, repl);
    FreeTextHasNoMatch(y, sep, repl);
  }

  /** `sep x sep y` with `x`, `y` free of the pattern: both occurrences are
      replaced, everything between them is kept. */
  lemma TwoOccurrences(sep: string, x: string, y: string, repl: string)
    requires sep != "" && sep[0] !in x && sep[0] !in y
    ensures ReplaceAll(sep + x + sep + y, sep, repl) == repl + x + repl + y
    ensures Count(sep + x + sep + y, sep) == 2
  {
    OneOccurrence(sep, y, repl);
    FreePrefixPassesThrough(x, sep + y, sep, repl);
    LeadingMatch(sep, x + (sep + y), repl);
    Reassociate(sep, x, sep, y);
    Reassociate(repl, x, repl, y);
  }

  /** Regrouping a four-part concatenation to the right. */
  lemma Reassociate(a: string, b: string, c: string, d: string)
    ensures a + b + c + d == a + (b + (c + d))
  {
    assert a + b + c + d == (a + b) + (c + d);
  }

  /** One occurrence, replaced by a different text of the same length. */
  lemma SubstituteOneOccurrence(content: string, sep: string, y: string, repl: string)
    requires sep != "" && sep[0] !in y && content == sep + y && !IsBinary(content)
    requires |repl| == |sep| && repl != sep
    ensures SubstituteLiteral(Some(content), sep, repl) == Done(Substitution(content, repl + y, 1, 1, true))
  {
    OneOccurrence(sep, y, repl);
    assert (repl + y)[..|sep|] == repl && content[..|sep|] == sep;
  }

  /** Two occurrences, replaced by a different text of the same length. */
  lemma SubstituteTwoOccurrences(content: string, sep: string, x: string, y: string, repl: string)
    requires sep != "" && sep[0] !in x && sep[0] !in y && content == sep + x + sep + y && !IsBinary(content)
    requires |repl| == |sep| && repl != sep
    ensures SubstituteLiteral(Some(content), sep, repl) == Done(Substitution(content, repl + x + repl + y, 2, 2, true))
  {
    TwoOccurrences(sep, x, y, repl);
    assert (repl + x + repl + y)[..|sep|] == repl && content[..|sep|] == sep;
  }

  /** The pieces of the two-match example text. */
  lemma TwoMatchesText(content: string)
    requires content == "foo\nbar foo\n"
    ensures content == "foo" + "\nbar " + "foo" + "\n" && !IsBinary(content)
    ensures "baz" + "\nbar " + "baz" + "\n" == "baz\nbar baz\n"
  {
  }

  /** Two matches on separate lines are both replaced. */
  lemma ExampleTwoMatches(content: string)
    requires content == "foo\nbar foo\n"
    ensures SubstituteLiteral(Some(content), "foo", "baz") == Done(Substitution(content, "baz\nbar baz\n", 2, 2, true))
  {
    TwoMatchesText(content);
    SubstituteTwoOccurrences(content, "foo", "\nbar ", "\n", "baz");
  }

  /** The pieces of the CRLF example text. */
  lemma CrlfText(content: string)
    requires content == "foo\r\nbar\r\n"
    ensures content == "foo" + "\r\nbar\r\n" && !IsBinary(content)
    ensures "bar" + "\r\nbar\r\n" == "bar\r\nbar\r\n"
  {
  }

  /** CRLF line endings survive the substitution. */
  lemma ExampleKeepsCrlf(content: string)
    requires content == "foo\r\nbar\r\n"
    ensures SubstituteLiteral(Some(content), "foo", "bar") == Done(Substitution(content, "bar\r\nbar\r\n", 1, 1, true))
  {
    CrlfText(content);
    SubstituteOneOccurrence(content, "foo", "\r\nbar\r\n", "bar");
  }

  /** Content holding a NUL byte is refused. */
  lemma ExampleBinary()
    ensures SubstituteLiteral(Some("\0\U{1}\U{2}"), "a", "b") == Failed(BinaryFile)
  {
    assert "\0\U{1}\U{2}"[0] == '\0';
  }
}
