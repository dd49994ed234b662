# safereplace, modelled in Dafny

safereplace is a command-line tool for literal find-and-replace over a set of
files. It previews before it writes. A run goes through these steps:

1. It checks the parsed flags.
2. It *discovers* the files to touch: named files, a glob and/or a
   recursive walk by extension. It keeps only regular files and drops
   excluded ones, then returns absolute paths that are sorted and
   de-duplicated.
3. For each file in sorted order, it reads the file, refuses binary
   content, and counts and replaces every non-overlapping occurrence of
   the pattern.
4. It renders a line-by-line *preview*. A lone trailing-newline difference
   is not meaningful unless strict end-of-line mode is on.
5. Unless this is a dry run, it *applies* the new content atomically:
   - it stats the target;
   - it optionally copies the target to a unique `.bak` name;
   - it writes a temporary file in the same directory and gives it the
     target's permission bits;
   - it renames the temporary file over the target.
6. It returns exit code 0 (nothing differed), 1 (something differed) or
   2 (an error occurred; this wins over 1).

The model has one module per core package, plus three supporting modules:

| file | module | models |
|---|---|---|
| `processor.dfy` | `Processor` | `SubstituteLiteralFile`, as a function of what `os.ReadFile` returned |
| `diff.dfy` | `Diff` | `Diff`, as a loop-based method proved equal to the function `Rendered`; the properties of the preview |
| `apply.dfy` | `Apply` | `WriteAtomic`, `uniqueBackupPath` and `copyFile`, as methods over a mutable file system |
| `discovery.dfy` | `Discovery` | `Discover` and its expansions, as methods over a file-system snapshot |
| `cli.dfy` | `Cli` | flag validation and `Run` |
| `strings.dfy`, `paths.dfy` | `Strings`, `Paths` | the parts of Go's `strings`, `sort` and `path/filepath` the core relies on |
| `fs.dfy` | `Fs` | the file system |

In `Fs`, the file system is a map from path to entry. An entry has a kind,
content, permission bits and readability. The model also has a set of
paths whose metadata cannot be read and the process umask. The mutating
calls (`CreateFile`, `WriteContent`, `Chmod`, `Rename`, `Remove`) are
methods of the class `Fs.FileSystem`, which also keeps a ghost log of the
calls made.

Every imperative operation is a method whose `ensures` ties its result and
new state to a pure function of the old state:

| method | function |
|---|---|
| `Apply.WriteAtomic` | `WriteSpec` |
| `Apply.Backup` | `BackupSpec` |
| `Apply.CopyFile` | `CopySpec` |
| `Cli.ProcessAll` | `Steps` |
| `Cli.Run` | `Finish` |

What the source promises is then proved as lemmas over those functions.

Every call in the apply step that can fail gets a boolean in
`Apply.Faults`, so each failure path is a separate checked case. The name
`os.CreateTemp` chooses is a parameter. Run's behaviour in these cases is
modelled exactly as written:
- A file whose only change is a final newline still sets the exit code to
  1. Nothing is shown or written for it
  (`Cli.ExampleTrailingNewlineOnly`).
- `--ext .` passes validation, then makes discovery fail, so the exit code
  is 2 (`Cli.DotExtExitsTwo`).

## Model

| member | source | states |
|---|---|---|
| `Processor.SubstituteLiteral` | internal/processor/processor.go:20-47 | Fails with `ReadFailed` exactly when the read failed. Fails with `BinaryFile` exactly when the content holds a NUL character. Otherwise: `before` is the content; `replacements == matches`; `changed` iff `after != before`; no matches means `after == before`; an empty pattern is a no-op; else `matches` is the non-overlapping count and `after` has every occurrence replaced |
| `Processor.AbsentPatternLeavesContent` | internal/processor/processor.go:35-38 | When the pattern does not occur, the result is the content unchanged, with 0 matches and `changed` false |
| `Processor.SelfReplacementCountsButKeeps` | internal/processor/processor.go:39-46 | Replacing a present pattern with itself counts matches but reports no change |
| `Processor.SubstitutionShape` | internal/processor/processor.go:35-46 | `after` is the pieces between occurrences joined by the replacement; the content is those pieces joined by the pattern; matches = pieces - 1; no piece still contains the pattern; the length changes by matches * (\|repl\| - \|pattern\|) |
| `Processor.OneOccurrence` | internal/processor/processor.go:35-39 | A text with the pattern written once at its start gives 1 match, replaced in place |
| `Processor.TwoOccurrences` | internal/processor/processor.go:35-39 | The same with the pattern written twice: 2 matches, each replaced |
| `Processor.SubstituteOneOccurrence` | internal/processor/processor.go:20-47 | The full result for a one-occurrence text: the new content, 1 match, 1 replacement, changed |
| `Processor.SubstituteTwoOccurrences` | internal/processor/processor.go:20-47 | The full result for a two-occurrence text: 2 matches, 2 replacements, changed |
| `Processor.TwoMatchesText` | internal/processor/processor_test.go:37-53 | The test text splits into the pieces used by the two-occurrence lemma and holds no NUL |
| `Processor.ExampleTwoMatches` | internal/processor/processor_test.go:37-53 | `"foo\nbar foo\n"`, with `foo` replaced by `baz`, gives `"baz\nbar baz\n"`, 2 matches, 2 replacements |
| `Processor.CrlfText` | internal/processor/processor_test.go:55-67 | The CRLF test text splits as the one-occurrence lemma needs |
| `Processor.ExampleKeepsCrlf` | internal/processor/processor_test.go:55-67 | `\r\n` line endings survive the replacement untouched |
| `Processor.ExampleBinary` | internal/processor/processor_test.go:69-76 | Content with a NUL byte is refused as binary |
| `Strings.Split` | internal/diff/diff.go:73-74 | `strings.Split` always yields at least one piece |
| `Strings.PiecesFree` | internal/processor/processor.go:35-39 | No piece of a split contains the separator, so every occurrence is cut (and replaced) |
| `Strings.SplitFirstCutLeftmost` | internal/processor/processor.go:35-39 | No occurrence of the separator starts inside the first piece: the first cut is at the leftmost occurrence |
| `Strings.SplitCutsLeftmost` | internal/processor/processor.go:35-39 | In the text from any piece on, no occurrence starts inside that piece, so the cuts go left to right and do not overlap ("aaa" by "aa" is `["", "a"]`) |
| `Strings.SplitWithout` | internal/processor/processor.go:35-38 | A text is a single piece exactly when the separator does not occur in it |
| `Strings.SplitThree` | internal/diff/diff.go:73-74 | Three pieces free of the separator's first character, joined by it, split back into those three |
| `Strings.SplitJoinRoundTrip` | internal/processor/processor.go:39 | Joining the pieces of a split with the separator gives back the text |
| `Strings.CountIsPiecesMinusOne` | internal/processor/processor.go:35 | `strings.Count` is the number of split pieces minus one |
| `Strings.Count` | internal/processor/processor.go:35 | Occurrences do not overlap: the count times the pattern length is at most the text length |
| `Strings.ReplaceAllJoinsPieces` | internal/processor/processor.go:39 | `strings.ReplaceAll` is the split pieces joined by the replacement |
| `Strings.ReplaceAll` | internal/processor/processor.go:39 | A text without the pattern's first character comes back unchanged |
| `Strings.ReplaceBySelfIsIdentity` | internal/processor/processor.go:39-45 | Replacing a pattern with itself leaves any text unchanged |
| `Strings.CountZeroIffAbsent` | internal/processor/processor.go:35-38 | The count is 0 exactly when the pattern does not occur |
| `Strings.NoOccurrenceNoChange` | internal/processor/processor.go:36-37 | With count 0, `ReplaceAll` changes nothing |
| `Strings.ReplaceAllLength` | internal/processor/processor.go:39 | The length of the replaced text is \|s\| + count * (\|repl\| - \|sep\|) |
| `Strings.SplitAppendSeparator` | internal/diff/diff.go:73-74 | Appending a one-character separator adds exactly one empty last piece |
| `Strings.SplitFree` | internal/diff/diff.go:73-74 | A text that lacks the separator's first character splits into itself alone |
| `Strings.SplitPiecesWithin` | internal/diff/diff.go:73-74 | Every character of every piece comes from the text |
| `Strings.FreePrefixPassesThrough` | internal/processor/processor.go:35-39 | A prefix that cannot start a match is copied unchanged and adds no matches |
| `Strings.LeadingMatch` | internal/processor/processor.go:35-39 | A leading occurrence is replaced and counted once |
| `Strings.TrimPrefix` | internal/discovery/discovery.go:98 | With the prefix present, the text is prefix + result; without it, the result is the text |
| `Strings.TrimSuffix` | internal/diff/diff.go:31-36 | With the suffix present, the text is result + suffix; without it, the result is the text |
| `Strings.ToLower` | internal/discovery/discovery.go:167 | Same length; each character lower-cased |
| `Strings.LessEqTotal` | internal/cli/run.go:94 | The byte-wise order that `sort.Strings` uses is total |
| `Strings.LessEqAntisymmetric` | internal/cli/run.go:94 | The same order is antisymmetric |
| `Strings.LessEqTransitive` | internal/cli/run.go:94 | The same order is transitive |
| `Strings.Insert` | internal/discovery/discovery.go:78 | Inserting into a sorted list keeps it sorted and adds exactly the element |
| `Strings.SortStrings` | internal/discovery/discovery.go:78 | `sort.Strings` gives a sorted permutation of its input |
| `Strings.PermutationKeepsDistinct` | internal/cli/run.go:94 | Sorting a list without duplicates leaves it without duplicates |
| `Strings.Decimal` | internal/apply/apply.go:95 | `%d` gives a non-empty run of digits |
| `Strings.DecimalValue` | internal/apply/apply.go:95 | The digits of `%d` stand for the number itself, with no leading zero |
| `Paths.Join` | internal/discovery/discovery.go:115-118 | Joining onto an absolute path gives an absolute path |
| `Paths.Abs` | internal/discovery/discovery.go:89-96 | An absolute path is returned as is. The call fails exactly when the path is relative and there is no working directory |
| `Paths.Rel` | internal/discovery/discovery.go:195 | `filepath.Rel` of two absolute paths is never empty |
| `Paths.RelBelow` | internal/discovery/discovery.go:195 | For a path below the base, the relative path is the elements past the base's joined by `/`, and `.` for the base itself |
| `Paths.Base` | internal/apply/apply.go:36 | `filepath.Base` is never empty |
| `Paths.Dir` | internal/apply/apply.go:35 | The directory of an absolute path is absolute |
| `Paths.Ext` | internal/discovery/discovery.go:177 | The extension is a suffix that starts with its only dot and has no slash. It is empty exactly when the last element has no dot |
| `Diff.HasChanges` | internal/diff/diff.go:22-23 | False exactly when the texts have the same length and agree at every position |
| `Diff.EqualIgnoringFinalNewline` | internal/diff/diff.go:25-38 | Equal texts qualify, and qualifying texts agree once one final newline is trimmed from each |
| `Diff.Diff` | internal/diff/diff.go:43-100 | The preview and flag equal `Rendered`, the function whose properties follow |
| `Diff.RenderBody` | internal/diff/diff.go:73-98 | The line loop produces exactly `Body` over max(\|before lines\|, \|after lines\|) positions |
| `Diff.EmitLine` | internal/diff/diff.go:87-97 | One position adds its `-`/`+` lines to the output so far |
| `Diff.BodyStep` | internal/diff/diff.go:79-98 | One more position appends that position's edit; equal lines append nothing |
| `Diff.EqualIgnoringFinalNewlineMeaning` | internal/diff/diff.go:26-38 | Two texts count as equal exactly when they are identical, or one is the other plus one `\n` and the other does not itself end in `\n` |
| `Diff.ChangedExactly` | internal/diff/diff.go:45-51 | The change flag is true exactly when the texts differ and either strict mode is on or they are not equal up to one final newline. In strict mode it equals `HasChanges` |
| `Diff.OutputShape` | internal/diff/diff.go:45-71 | No change means empty output. A change means output starting with the `--- before`/`+++ after` header |
| `Diff.LineEditEmptyIff` | internal/diff/diff.go:87-97 | A position emits nothing exactly when its two lines are equal |
| `Diff.BodyEmptyIff` | internal/diff/diff.go:79-98 | The body is empty exactly when every position's lines are equal |
| `Diff.PlainBodyChars` | internal/diff/diff.go:59-62 | Without colour, every body character is `-`, `+`, `\n` or comes from an input line |
| `Diff.PlainHasNoEscape` | internal/diff/diff_test.go:91-102 | Without colour, inputs free of ESC give output free of ESC |
| `Diff.PiecesHaveNoEscape` | internal/diff/diff.go:73-74 | Splitting an ESC-free text gives ESC-free lines |
| `Diff.HeaderHasNoEscape` | internal/diff/diff.go:70-71 | The header adds no ESC |
| `Diff.PlainBodyHasNoEscape` | internal/diff/diff.go:79-98 | An uncoloured body over ESC-free lines has no ESC |
| `Diff.RenderedChanged` | internal/diff/diff.go:69-99 | A changed preview is the header followed by the body over the split lines |
| `Diff.TrailingNewlineIgnoredOnce` | internal/diff/diff_test.go:123-132 | Outside strict mode, adding one `\n` is ignored exactly when the text did not already end in `\n` |
| `Diff.ExtraNewlineShowsOnlyHeader` | internal/diff/diff.go:45-99 | In strict mode, or when the text already ends in `\n`, adding one `\n` reports a change whose preview is the header alone |
| `Diff.EmptyLineSplits` | internal/diff/diff_test.go:104-121 | `"a\n\nc"` splits into `a`, empty, `c`, and `"a\nb\nc"` into `a`, `b`, `c` |
| `Diff.BlankFilledDiffer` | internal/diff/diff_test.go:104-121 | Those two texts are not equal up to a final newline |
| `Diff.EmptyLineBody` | internal/diff/diff_test.go:104-121 | Their body is `+b\n` alone; no `-` line for the blank |
| `Diff.ExampleEmptyLine` | internal/diff/diff_test.go:104-121 | The whole preview is the header plus `+b\n`, changed |
| `Diff.ColourTexts` | internal/diff/diff_test.go:63-76 | `a` and `b` are one line each and differ |
| `Diff.ColourBody` | internal/diff/diff_test.go:63-76 | The coloured body is a red `-a` line then a green `+b` line, each reset |
| `Diff.ExampleColour` | internal/diff/diff_test.go:63-76 | The coloured preview is the header plus those two lines, changed |
| `Apply.Prefix` | internal/apply/apply.go:64-66 | What a failed write leaves behind is a prefix of the data |
| `Apply.FirstFreeBackup` | internal/apply/apply.go:89-101 | A returned name does not exist and is one of the candidates `base+suffix`, `base+suffix.1` … `.999` |
| `Apply.UniqueBackupPath` | internal/apply/apply.go:89-101 | The candidate loop returns `FirstFreeBackup` from the first candidate |
| `Apply.FirstFreeBackupNone` | internal/apply/apply.go:94-100 | No name is found exactly when all 1000 candidates are taken |
| `Apply.FirstFreeBackupIsFirst` | internal/apply/apply.go:90-98 | The name found is the first candidate not taken; all earlier ones are taken |
| `Apply.CopyFile` | internal/apply/apply.go:103-118 | Result, new tree and calls equal `CopySpec` |
| `Apply.CopyOutcome` | internal/apply/apply.go:103-118 | The copy succeeds exactly when the source is a readable regular file and create, copy and sync all succeed |
| `Apply.CopyFacts` | internal/apply/apply.go:103-118 | Success creates the destination with the source's content and mode & ~umask. Failure leaves the tree or a partly copied file. Nothing but the destination changes. The calls are create+write or none |
| `Apply.ReplaceViaTemp` | internal/apply/apply.go:58-81 | Result, new tree and calls equal `ReplaceSpec` |
| `Apply.ReplaceFacts` | internal/apply/apply.go:58-81 | Succeeds exactly when write, chmod, sync, close and rename succeed and the target is not a directory. Success puts the data with the target's mode at the target and removes the temp. Failure names the stage and removes the temp, or leaves it when removal fails. Only the last call is a rename, temp to target |
| `Apply.TempAndRename` | internal/apply/apply.go:53-81 | Result, new tree and calls equal `TempSpec` |
| `Apply.TempOutcome` | internal/apply/apply.go:53-81 | `TempStage` fails exactly when creation fails or the name exists. The whole step succeeds exactly when every call succeeds and the target is not a directory |
| `Apply.TempEntries` | internal/apply/apply.go:53-81 | A temp-creation failure changes nothing. Success replaces the target with the data and mode. Later failures restore the tree unless removing the temp fails |
| `Apply.TempCalls` | internal/apply/apply.go:53-81 | The first call creates the temp. Every call is on the temp except a final rename onto the target |
| `Apply.TempKeeps` | internal/apply/apply.go:53-81 | Every existing file other than the target keeps its entry |
| `Apply.Backup` | internal/apply/apply.go:39-51 | Result, new tree and calls equal `BackupSpec` |
| `Apply.BackupOutcome` | internal/apply/apply.go:39-51 | `BackupNameStage` exactly when no free name exists. Success exactly when a name exists and the copy succeeds |
| `Apply.BackupEntries` | internal/apply/apply.go:39-51 | Success adds the backup with the target's content and mode & ~umask. Only the backup name can change. The calls are create+write on it or none |
| `Apply.WriteAtomic` | internal/apply/apply.go:27-87 | Outcome, new tree and call log equal `WriteSpec` on the temp name built from the base name and the random part |
| `Apply.WriteStatFailure` | internal/apply/apply.go:29-32 | `StatStage` fails exactly when the target cannot be stat'ed. A failure there, or in choosing a backup name, touches nothing |
| `Apply.WriteBackupChoice` | internal/apply/apply.go:39-47 | With backups on, the name is `FirstFreeBackup` with suffix `.bak` by default, and `BackupNameStage` fails exactly when there is none. Without backups, no backup call is made |
| `Apply.AfterBackup` | internal/apply/apply.go:39-51 | A successful backup step leaves the tree with only the copy added; every other path agrees |
| `Apply.WriteBackupHolds` | internal/apply/apply.go:39-51 | Unless the backup step failed, the backup file holds the original's content |
| `Apply.WriteTargetIntact` | internal/apply/apply.go:27-87 | Any failure leaves the target exactly as it was |
| `Apply.WriteApplied` | internal/apply/apply.go:27-87 | Success exactly when: the target stats; with backups, a name is free and the copy succeeds; the temp can be created; write/chmod/sync/close/rename succeed; the target is not a directory |
| `Apply.WriteAppliedContent` | internal/apply/apply.go:64-81 | On success the target is a regular file holding the data, with the original's permission bits |
| `Apply.WriteKeepsOthers` | internal/apply/apply.go:27-87 | Every other existing file keeps its entry, on every outcome |
| `Apply.WriteFrame` | internal/apply/apply.go:27-87 | Only the target, the temp name and the backup name can change |
| `Apply.WriteTempCleanup` | internal/apply/apply.go:58-63 | A temp file is left behind only when removing it failed after it was created |
| `Apply.WriteCallOrder` | internal/apply/apply.go:27-87 | Backup calls are create+write on the backup name. Temp calls start with its creation, touch only the temp, and end with the rename only on success |
| `Apply.ExampleBasic` | internal/apply/apply_test.go:10-24 | With no faults, the write succeeds and the file holds the data with its mode kept |
| `Apply.BackupName` | internal/apply/apply.go:89-101 | When `base+suffix` itself is free, it is the name chosen |
| `Apply.BackupWriteApplies` | internal/apply/apply.go:27-87 | With backups on and no faults, a readable regular file is written when its backup name and temp name are free and distinct |
| `Apply.ExampleBackup` | internal/apply/apply_test.go:26-50 | With backups on, the write succeeds and `<file>.bak` holds the old content |
| `Apply.ExampleBackupUnique` | internal/apply/apply_test.go:52-72 | When `<file>.bak` exists, the backup goes to `<file>.bak.1` |
| `Apply.ExampleNoSuchFile` | internal/apply/apply_test.go:74-81 | A missing target fails at the stat |
| `Discovery.Normalize` | internal/discovery/discovery.go:89-101 | Fails exactly when the root, with `""` read as `.`, is relative and there is no working directory. Otherwise the extension loses one leading dot, and the root is absolute when the working directory is |
| `Discovery.ToAbsUnderRoot` | internal/discovery/discovery.go:115-124 | Under an absolute root, an absolute path is kept and a relative one is joined to the root |
| `Discovery.ExpandFiles` | internal/discovery/discovery.go:126-140 | Output and errors equal `FilesOut` and `FilesIssues` |
| `Discovery.FilesOutMembers` | internal/discovery/discovery.go:126-140 | A path is kept exactly when it is regular and some named file resolves to it |
| `Discovery.FilesNeverFail` | internal/discovery/discovery.go:126-140 | Under an absolute root, the named files produce no errors |
| `Discovery.ExpandGlob` | internal/discovery/discovery.go:142-162 | Output holds exactly the regular glob matches, made absolute. The only error is a malformed pattern |
| `Discovery.ReachedNeedsRoot` | internal/discovery/discovery.go:187 | The walk reaches nothing unless the root itself can be stat'ed |
| `Discovery.VisitEntry` | internal/discovery/discovery.go:168-186 | One entry gives its path when it is regular with the wanted extension. It records a walk error exactly when it is an unreadable directory, and an abs error exactly when that path cannot be made absolute |
| `Discovery.Walk` | internal/discovery/discovery.go:168-187 | The same, over every visited entry |
| `Discovery.RootFailureOnly` | internal/discovery/discovery.go:168-173 | An unreachable root gives no paths and exactly one walk error, for the root |
| `Discovery.WalkPaths` | internal/discovery/discovery.go:164-189 | The walk's paths are `ExtOut` |
| `Discovery.WalkIssues` | internal/discovery/discovery.go:164-189 | The walk's errors are exactly `ExtIssue` |
| `Discovery.ExpandExt` | internal/discovery/discovery.go:164-189 | Output and errors are exactly `ExtOut` and `ExtIssue` |
| `Discovery.RelOrEmpty` | internal/discovery/discovery.go:195 | The relative path is `""` exactly when the root or the path is relative, the case where `filepath.Rel` fails and its error is dropped |
| `Discovery.AnyExcludes` | internal/discovery/discovery.go:197-206 | True exactly when some exclude matches the relative path or base name, or is absolute and matches the full path |
| `Discovery.Match` | internal/discovery/discovery.go:212-216 | A malformed pattern matches nothing |
| `Discovery.ApplyExcludes` | internal/discovery/discovery.go:191-210 | The filter loop yields `Kept` |
| `Discovery.KeptMembers` | internal/discovery/discovery.go:191-210 | A path survives exactly when it was present and is not excluded |
| `Discovery.KeptDistinct` | internal/discovery/discovery.go:191-210 | Filtering keeps a list free of duplicates |
| `Discovery.Expand` | internal/discovery/discovery.go:36-64 | The set holds exactly the paths some active selector gives. The errors are exactly those of the active selectors |
| `Discovery.ToSeq` | internal/discovery/discovery.go:66-70 | The slice holds each set member exactly once |
| `Discovery.Arrange` | internal/discovery/discovery.go:66-78 | The result is sorted, has no duplicates, and holds exactly the non-excluded members |
| `Discovery.Discover` | internal/discovery/discovery.go:26-85 | Fatal `InvalidRoot` exactly when normalisation fails. Fatal `NoSelector` exactly when no selector remains. Otherwise the sorted, duplicate-free list of chosen regular files and every non-fatal error |
| `Discovery.SelectedAreRegular` | internal/discovery/discovery.go:103-113 | Every selected path is an absolute regular file, not a symlink |
| `Discovery.IsRegular` | internal/discovery/discovery.go:103-113 | True exactly when the entry itself, without following a symlink, exists with readable metadata and is a regular file |
| `Discovery.DotExtIsNoSelector` | internal/discovery/discovery_test.go:146-156 | `--ext .` alone normalises to no selector at all |
| `Discovery.ExampleExtIgnoresCase` | internal/discovery/discovery.go:177 | `b.TXT` matches extension `.txt` |
| `Discovery.ExampleHiddenFileExt` | internal/discovery/discovery_test.go:262-272 | `.env` has extension `env` |
| `Discovery.ExampleOtherExt` | internal/discovery/discovery_test.go:36-53 | `a.md` does not match `txt` |
| `Discovery.ExampleUnlistableDirectory` | internal/discovery/discovery_test.go:241-260 | An unreadable directory yields a walk error and hides its files |
| `Discovery.ExampleInvalidGlob` | internal/discovery/discovery_test.go:158-170 | A malformed glob yields a glob error while the named file is still chosen |
| `Cli.Validate` | internal/cli/run.go:57-70 | Each error holds exactly when its check is the first to fail. No error means a pattern, a replacement and no regex |
| `Cli.ProcessFile` | internal/cli/run.go:97-130 | Event and new tree equal `FileStep` |
| `Cli.ProcessAll` | internal/cli/run.go:92-131 | The tree equals `Steps`. `hadErrors` and `hadChanges` hold exactly when some event is an error, or a change |
| `Cli.AppendEvent` | internal/cli/run.go:98-106 | One more event updates the two flags by disjunction |
| `Cli.Run` | internal/cli/run.go:74-145 | A validation error gives 2 with nothing touched. Otherwise discovery from `.` meets `Describes`, and the code and tree equal `Finish` |
| `Cli.ExitCode` | internal/cli/run.go:133-144 | 2 exactly when discovery failed or some file had an error; 1 exactly when there was no error but some change; 0 otherwise |
| `Cli.StepsLength` | internal/cli/run.go:96-131 | One event per path |
| `Cli.FileStepWrites` | internal/cli/run.go:103-130 | A file is written to exactly when this is not a dry run, substitution succeeded with a change, and the preview is meaningful. Otherwise the tree is unchanged |
| `Cli.FileStepWritten` | internal/cli/run.go:97-130 | A written file now holds the substituted content, with its permission bits kept |
| `Cli.FileStepKeepsOthers` | internal/cli/run.go:121-130 | Processing one file leaves every other file's entry as it was |
| `Cli.DryRunChangesNothing` | internal/cli/run.go:121-122 | A dry run writes nothing and leaves the tree unchanged |
| `Cli.WrittenHoldStep` | internal/cli/run.go:96-131 | Writing one more file keeps every earlier written file's content |
| `Cli.WrittenFilesKeepContent` | internal/cli/run.go:96-131 | At the end, every file reported written holds what was written to it |
| `Cli.FileStepQuiet` | internal/cli/run.go:97-105 | A file step that is neither an error nor a change reports `Unchanged` and touches nothing |
| `Cli.QuietRun` | internal/cli/run.go:96-131 | With no errors and no changes, the tree is untouched and every substitution was a successful no-change |
| `Cli.ExitZeroMeansUntouched` | internal/cli/run.go:133-144 | Exit 0 means discovery had no errors, the tree is untouched, and no file needed a change |
| `Cli.FinishKeepsWrites` | internal/cli/run.go:87-131 | Past the early exit, the final tree is that of processing in sorted order. Written files hold their content |
| `Cli.DotExtExitsTwo` | internal/cli/run.go:81-90 | `--ext .` passes validation, but the run exits 2 and touches nothing |
| `Cli.SortSingle` | internal/cli/run.go:94 | Sorting one path gives it back |
| `Cli.FinishOne` | internal/cli/run.go:133-144 | With one discovered path, the code is 2 for an error, 1 for a change, else 0 |
| `Cli.TrailingNewlineTexts` | internal/cli/run.go:103-118 | Replacing `a` with `a\n` counts as a change, yet the preview calls it not meaningful |
| `Cli.ExampleTrailingNewlineOnly` | internal/cli/run.go:103-118 | Such a file is `NotMeaningful`; nothing is written, yet the run exits 1 |
| `Cli.FooBarTexts` | main_test.go:108-148 | `foo\n`, with `foo` replaced by `bar`, gives `bar\n`, and the preview is meaningful |
| `Cli.FileStepWithBackup` | internal/cli/run.go:97-130 | With backups on and no faults, a meaningful change to a readable regular file is reported `Written` when the backup and temp names are free and distinct |
| `Cli.FileStepBackedUp` | internal/cli/run.go:121-128 | After a write with backups on, the first free `.bak` candidate exists and holds a complete copy of the original, with mode & ~umask |
| `Cli.ApplyWithBackupStep` | main_inproc_test.go:50-74 | Applying with a backup writes `bar\n` and leaves `foo\n` in `.bak` |
| `Cli.ExampleApplyWithBackup` | main_inproc_test.go:50-74 | The whole run exits 1, with `bar\n` in the file and `foo\n` in the backup |

## Left out

- Argument parsing (`pflag`), `main.go` and all stdout/stderr text are not modelled. `Cli.Config` is the already parsed flags, and the output of a file is the `Event` it produces.
- Regex mode is not modelled because Run rejects it before any work.
- `--yes` and `--interactive` only take part in validation. `--context` is carried but unused, as in the source.
- Directory fsync (`syncDir`) is left out: it changes no file content and its error is discarded.
- I/O failures are fault-flag parameters, not actual failures.
- The name `os.CreateTemp` picks is a parameter. A name that is taken fails the temp stage, rather than being retried with another random name.
- `filepath.WalkDir` visiting order is left out: the walk is the set of entries reachable through readable directories. Discovery sorts afterwards, so only the set matters.
- `filepath.Match` and `filepath.Glob` are an abstract `Matcher`: a well-formedness test and a match relation. Their syntax is not modelled, and neither are unreadable directories during globbing.
- `filepath.Clean` is not modelled. Paths are taken clean, and `Discovery.RelOrEmpty` gives `""` when the root or the path is relative, where `filepath.Rel` would fail (its error is dropped). `filepath.Rel` of two relative paths, which Go computes, is not modelled; discovery only ever passes absolute ones.
- `os.Stat` follows one symlink level; a link to a link is treated as a failed stat. A link's content is taken as the absolute path of its target: a relative target is not resolved against the link's directory.
- Case folding covers ASCII only (`Strings.LowerChar`); Unicode simple folding is left out.
- `Apply.CopyFile`: requires the destination to be free. `O_TRUNC` over an existing file is not modelled, because the only caller passes a name that `uniqueBackupPath` found missing.
- `Apply.WriteAtomic`: the error values, including the `errors.Join` with the `Close` error, are collapsed to the failing stage.
- `Cli.Run`: always passes an empty backup suffix, so the `.bak` default applies, as in the source.
- `Discovery.ExpandGlob`: states the output as a set, without the order of `filepath.Glob`'s matches; discovery drops that order anyway.
- `Processor.SubstituteLiteral`: `Matches` is an unbounded integer, not Go's `int`.
- Go's byte-string semantics are modelled on characters, and the NUL test looks for `'\0'`.
