# Lazuli algorithms, modelled and proved in Dafny

Lazuli compiles a declarative language and drives the result with a command-line tool. Most of its
lowering code copies fields. This project models the algorithms in it that do more than that, and proves
what they promise, for all inputs, all runs or all reachable states.

Check the whole project with `dafny verify dfyconfig.toml`.

## What is modelled

One module per component; loops over buffers, maps and text are methods with invariants, proved against
specification functions, and the lemmas are about those functions.

| module | component | main result |
|---|---|---|
| `EditDistance` | the full-table and the two-row Levenshtein, the suggestion that uses it | both compute the length of a shortest edit script; it is a metric |
| `Paths` | dot normalization, relative paths, the wiring of the Go runtime directory | exactly when a relative path leads to its target, and when the two wired paths name one directory, on either platform |
| `Decorators`, `Markers`, `Pii`, `FieldTail` | quote- and depth-aware scanners, the `@cap.PII(...)` marker, trailing modifiers | a field's tail with a marker anywhere among its modifiers is recovered whole |
| `Expr` | literals, paths and nested `@fn` calls | reading a printed tree gives the tree back |
| `Comparisons` | closed predicates and query filters | both parsers split alike; printing and parsing are inverse for all six operators |
| `Validators` | inline field constraints | the regex shape check accepts exactly a grammar |
| `Calendar` | the closed form of the civil calendar | it equals counting days one at a time from 1970-01-01; exact bounds on overflow |
| `Rbac` | role inheritance | the worklist computes the least solution of the inheritance equations; cycle issues come from exactly the walks that never end, one per cycle exactly when every cycle is a self-loop that nothing else reaches |
| `Watch` | the debounce buffer and its loop | over every run nothing is lost, doubled or reordered |
| `Migrate` | the migration ledger | what a run has done when any calls fail; a rerun resumes; up then down restores the ledger unless a call fails or a down script is missing |
| `SourceMap` | line table and lookup | the lookup counts newlines; positions increase |
| `GoWork`, `Regeneration` | the line-oriented `go.work` stripper and merger | idempotence, preservation of entries; exactly which generated entries make a second merge, and a second regeneration, change nothing |
| `Casing`, `Restrict` | case conversion and `restrict on_delete` scopes | the conversions are inverse exactly when no word boundary is lost; the module pass resolves, is idempotent and absorbs the per-feature pass |
| `Compatibility`, `Changelog` | the breaking-change classifier and the report | silence means that every payload accepted before is accepted now |

`Text`, `Order`, `Decimal` and `Wrappers` hold what several modules share: trimming and splitting, the byte
order of strings, integer literals, `Option`.

## Modelling decisions

- Text is ASCII: `char` stands for a byte, and whitespace is the ASCII whitespace of Rust's `is_whitespace`.
- Integers are unbounded except where the width matters: 64-bit literals and bounds (`Decimal`,
  `Validators`), the 32-bit intermediates of the calendar (`Calendar.FitsI32`), 32-bit offsets (`SourceMap`).
- Calls into the outside world are steps that may fail: any set of the database calls of `Migrate.Database`,
  and any of the dispatches of `Watch.RunWatchLoop`, may fail, so a contract that holds for every choice holds
  for every pattern of failures. The clock is a list of readings.
- Path components are compared by a parameter, because Windows folds case; `Paths.BothComparisonsQualify`
  shows that both comparisons meet what the lemmas ask of it. Places are compared up to it, and every drive has
  a current directory. Whether paths are Windows paths is a parameter too.
- Ordered maps and sets are lists in order. A `go.work` file is its list of lines and whether the last one
  ends in a newline, which determine its text (`GoWork.ReadText`); what a single line is (an
  opening, a closing, an entry) is decided by predicates that are fields of `GoWork.Rules` and
  `GoWork.UseRules`, and `GoWork.GoWorkRulesAreSound` shows that those of the code meet what the lemmas ask.

## Where the code and its comments differ

The model follows the code.

- `crates/lazuli_analyzer/src/rbac.rs:149` says that a cycle is reported once. The key of lines 150-153 also
  holds the name that is re-entered, so keys of two roles never coincide (`Rbac.KeysOfDistinctRoles`), and
  every role whose walk loops is reported. `Rbac.TwoRoleCycleIsReportedTwice` is a cycle with two reports;
  there are as many reports as cycles exactly when every looping role inherits from itself
  (`Rbac.OneReportPerCycleIff`).
- `crates/lazuli_analyzer/src/lib.rs:215-217` says that the module pass is a no-op on guards that the
  per-feature pass has resolved. `Restrict.SameNameElsewhereOverrides` is a guard it changes. It keeps the
  flags exactly when the last resource of that snake-cased name in the module has the scope of the last one in
  the feature (`Restrict.FeatureFlagsKeptIff`), which unique resource names imply.
- `crates/lazuli_analyzer/src/helpers.rs:292-293` calls the two case conversions inverse on "the common
  subset". `Casing.CasesInvertIff` says which names those are.
- `crates/lazuli_analyzer/src/resource_validators.rs:338-341` says that a default that is not an integer
  passes the numeric checks; lines 379-386 and 399-406 count its characters instead.
  `Validators.TextDefaultIsRejected` is a default that fails; `Validators.TextDefaultIffLengthInRange` says
  which pass.
- `crates/lazuli_cli/src/lazurite_codegen.rs:178-223` takes the two relative paths to name one directory.
  `Paths.DottedProjectMissesRuntime` is a project root for which they do not. A path leads to the directory
  exactly when its start has only names past the part it shares with the directory, or when that part has no
  name (`Paths.RuntimeWiringIff`, which also covers a `[lazuli] path` below a drive's current directory,
  `X:name`); dot-free directories meet that for every other `[lazuli] path`. Lines 205-206 also promise a relative path or none. That holds
  exactly when `[lazuli] path` is not below a drive's current directory, or the project and the out directory
  are both on that drive (`Paths.EmittedIsRelativeIff`); for `D:lazuli`, with the project on C and the out
  directory on D, go.work's path keeps its drive (`Paths.DriveRelativeRootIsHalfRelative`).
- `crates/lazuli_cli/src/path_utils.rs:122-145` is meant to refuse paths without a relative bridge. It also
  refuses one that exists when the first part past the start reads as a root or a drive
  (`Paths.DirectoriesAreWiredIff`), as `C:` in `/p/C:/go` does (`Paths.DriveLikeNameIsRefused`).
- `crates/lazuli_cli/src/examples_bundle.rs:239-259` accepts every 32-bit year; after 5879610-09-09 the
  arithmetic overflows (`Calendar.ParseEpochDayOf`, `Calendar.FirstUnsafeDateOverflows`).
- `crates/lazuli_analyzer/src/source_map.rs:89-95`: the 32-bit column overflows at the end of a text of the
  largest size that is a single line, and on hand-made tables that start past the offset (`SourceMap.Resolve`).
- `crates/lazuli_cli/src/go_work_io.rs:155-188`: where an entry `)` is missing, every merge adds lines again;
  on distinct entries all other merges settle (`Regeneration.MergeSettlesIff`).
- `crates/lazuli_cli/src/go_work_io.rs:32-60`: a second regeneration can undo the first. It changes nothing,
  whatever the existing file, exactly when no generated entry is `)`, opens a `replace` block or is itself a
  runtime replace clause (`Regeneration.GoWorkRegenerationSettlesIff`, with
  `Regeneration.ReplaceEntryIsStripped` as an input); apart from that, a text that ends in two newlines loses
  one each time (`Regeneration.TrailingBlanksShrink`).
- `crates/lazuli_changelog/src/lib.rs:321-352` compares typed inputs only, so a break can hide behind an
  untyped version (`Compatibility.UntypedHidesBreak`), exactly on a step from a typed input to an untyped one
  (`Compatibility.SilenceCarriesIff`), and an input that names a slot twice can be reported
  against itself (`Compatibility.UnchangedIsSilentIff`, `Compatibility.RepeatedSlotIsReported`).

## Model

| member | source | states |
|---|---|---|
| EditDistance.Levenshtein | crates/lazuli_analyzer/src/helpers.rs:52-73 | the full-table loop returns the edit distance |
| EditDistance.ConventionsLevenshtein | crates/lazuli_analyzer/src/helpers.rs:76-98 | the rolling two-row loop returns the same number |
| EditDistance.DistanceIsShortestScript | crates/lazuli_analyzer/src/helpers.rs:52-98 | the distance is the length of a script of insertions, deletions and substitutions, and no script is shorter |
| EditDistance.DistanceIsLowerBound | crates/lazuli_analyzer/src/helpers.rs:52-98 | no script that turns one text into the other is shorter than the distance |
| EditDistance.DistanceIsMetric | crates/lazuli_analyzer/src/helpers.rs:52-98 | zero exactly on equal texts, symmetric, triangle inequality |
| EditDistance.OneEditIsOneAway | crates/lazuli_analyzer/src/helpers.rs:52-98 | a single edit moves a text at most one away |
| EditDistance.ConventionsUnknownSuggestion | crates/lazuli_analyzer/src/errors.rs:392-406 | a suggestion exists exactly if some entry is within one edit, and is the earliest of the nearest entries |
| EditDistance.ShippedCatalogIsUnambiguous | crates/lazuli_analyzer/src/errors.rs:370 | with the shipped catalog no identifier is within one edit of two entries |
| Paths.NormalizeDots | crates/lazuli_cli/src/lazurite_codegen.rs:270-289 | the loop over components computes the collapsed path |
| Paths.NormalizeShape | crates/lazuli_cli/src/lazurite_codegen.rs:270-289 | root parts, then parent parts, then names, and no current-dir part |
| Paths.NormalizeIdempotent | crates/lazuli_cli/src/lazurite_codegen.rs:270-289 | normalizing twice is normalizing once |
| Paths.NormalizeConcat | crates/lazuli_cli/src/lazurite_codegen.rs:270-289 | a prefix may be normalized first |
| Paths.NormalizeDenotesSamePlace | crates/lazuli_cli/src/lazurite_codegen.rs:270-289 | in a tree without links the normalized path leads to the same place |
| Paths.NormalizeKeepsExistingTarget | crates/lazuli_cli/src/lazurite_codegen.rs:270-289 | a path that resolves through existing directories still resolves, to the same place |
| Paths.BothComparisonsQualify | crates/lazuli_cli/src/path_utils.rs:50-56 | exact and case-folding comparison are equivalences that keep the five kinds of components apart |
| Paths.RelativePath | crates/lazuli_cli/src/path_utils.rs:65-107 | the common-prefix walk computes the relative path |
| Paths.RelativeReaches | crates/lazuli_cli/src/path_utils.rs:65-107 | from a directory that descends by names, the walk ends at the target, in the spelling of the start for the shared part |
| Paths.RelativeLeadsBackIff | crates/lazuli_cli/src/path_utils.rs:65-107 | as component lists: collapsing the start and the relative path gives the target back if and only if the start has only names below the shared part |
| Paths.RelativeLeadsIff | crates/lazuli_cli/src/path_utils.rs:65-107 | as directories, from any absolute start: the relative path leads to the target if and only if the start has only names below the shared part, or no name is shared (and a target below a drive's current directory climbs to the root of the drive), or nothing is shared |
| Paths.RelativeIsShortest | crates/lazuli_cli/src/path_utils.rs:65-107 | no shorter list of `..` and name steps leads to the target |
| Paths.NoAbsolutePathIsEmitted | crates/lazuli_cli/src/lazurite_codegen.rs:178-199 | for an absolute runtime directory, on a drive or share or at a Unix root, wiring is emitted only when it shares a root with both directories |
| Paths.DirectoriesAreWiredIff | crates/lazuli_cli/src/lazurite_codegen.rs:178-199 | between absolute directories, wiring is emitted exactly when the runtime directory is on the drive of both and below neither under a first part that reads as a root or a drive |
| Paths.PlainDirectoriesAreWiredIff | crates/lazuli_cli/src/lazurite_codegen.rs:178-199 | with plain names only the drive decides |
| Paths.JoinedIsAbsoluteIff | crates/lazuli_cli/src/path_utils.rs:122-145 | whether a joined relative path reads as absolute is decided by its first component |
| Paths.DriveLikeNameIsRefused | crates/lazuli_cli/src/lazurite_codegen.rs:178-199 | a directory named like a drive below the project is refused although the relative path exists |
| Paths.EmittedIsRelativeIff | crates/lazuli_cli/src/lazurite_codegen.rs:201-223 | for absolute project and out directories, any `[lazuli] path` and either platform: each emitted path is free of root parts exactly when `[lazuli] path` is not below a drive's current directory or its start is on that drive |
| Paths.DriveRelativeIsEmitted | crates/lazuli_cli/src/lazurite_codegen.rs:201-223 | for a `[lazuli] path` with plain names below a drive's current directory wiring is always emitted, on whatever drives the project and the out directory are |
| Paths.DriveRelativeRootIsHalfRelative | crates/lazuli_cli/src/lazurite_codegen.rs:201-223 | `D:lazuli` with the project on C and the out directory on D: go.mod's path is relative, go.work's is not |
| Paths.JoinWalks | crates/lazuli_cli/src/lazurite_codegen.rs:209-223 | joining `[lazuli] path`, relative, rooted or with a drive, onto the project is walking on from the project |
| Paths.RuntimeWiringIff | crates/lazuli_cli/src/lazurite_codegen.rs:178-223 | for absolute project and out directories and any `[lazuli] path`: when each emitted path names the runtime directory below the configured root |
| Paths.RuntimeWiringNamesOneDirectory | crates/lazuli_cli/src/lazurite_codegen.rs:178-223 | the go.mod path from the out directory and the go.work path from the project root name that one directory, for dot-free directories on either platform under either comparison and any `[lazuli] path` but `X:name` |
| Paths.DottedProjectMissesRuntime | crates/lazuli_cli/src/path_utils.rs:65-107 | a project root with `..` whose emitted path misses the runtime directory |
| Calendar.NextAddsOne | crates/lazuli_cli/src/examples_bundle.rs:250-259 | the day after a valid date has the next number, over month and leap-year ends (RFC 3339, section 5.7 and Appendix C) |
| Calendar.DayNumberCountsFromEpoch | crates/lazuli_cli/src/examples_bundle.rs:250-259 | the closed form is the signed count of days from 1970-01-01 |
| Calendar.DayNumberOrder | crates/lazuli_cli/src/examples_bundle.rs:250-259 | numbers order valid dates as the calendar does, and are equal only for equal dates |
| Calendar.AdvanceAdds | crates/lazuli_cli/src/examples_bundle.rs:250-259 | n days later is n more |
| Calendar.FitsIffResultFits | crates/lazuli_cli/src/examples_bundle.rs:250-259 | no 32-bit intermediate overflows exactly when the result is in a stated range |
| Calendar.FitsIffBetweenSafeDates | crates/lazuli_cli/src/examples_bundle.rs:250-259 | for valid dates that is exactly the span between two given dates, about 5.8 million years either way |
| Calendar.LaterFitsIff | crates/lazuli_cli/src/examples_bundle.rs:250-259 | from year 0 on, the arithmetic fits exactly up to the last safe date, days past the end of a month included |
| Calendar.ParseEpochDayOf | crates/lazuli_cli/src/examples_bundle.rs:239-259 | for digit fields: rejected exactly for a year above 32 bits, a month outside 1-12 or a day outside 1-31; otherwise the number of the closed form up to the last safe date, and an overflow after it |
| Calendar.FirstUnsafeDateOverflows | crates/lazuli_cli/src/examples_bundle.rs:239-259 | 5879610-9-10 is accepted and overflows |
| Calendar.DaysSpillOver | crates/lazuli_cli/src/examples_bundle.rs:250-259 | a day past the end of its month has the number of the date reached by counting on from the first of the month |
| Calendar.StaleAfterNinetyDays | crates/lazuli_cli/src/examples_bundle.rs:205-237 | an example is stale exactly when the date ninety days after its validation has passed |
| Decorators.FindBalancedDecoratorEnd | crates/lazuli_analyzer/src/helpers.rs:137-165 | the loop returns the end of the outermost group |
| Decorators.GroupEndsFirst | crates/lazuli_analyzer/src/helpers.rs:137-165 | that end is the first position outside strings where the depth returns to zero, and there is none if no such position exists |
| Decorators.AfterGroupAppend | crates/lazuli_analyzer/src/helpers.rs:137-165 | the end of a group is determined by the text up to it |
| Decorators.FirstParenBalancedToken | crates/lazuli_analyzer/src/helpers.rs:119-131 | the loop returns the trimmed text up to the first space outside every group |
| Markers.FindMarkerSpan | crates/lazuli_analyzer/src/resource_p2.rs:63-98 | the scan returns the first marker outside every group and string that starts the text or follows a space and whose group closes |
| Markers.InsertedIsFound | crates/lazuli_analyzer/src/resource_p2.rs:63-98 | a marker put after closed, marker-free text is the one found, with its exact span |
| Pii.FindFieldLevelCapPiiSpan | crates/lazuli_analyzer/src/resource_p2.rs:63-98 | the same scan for `@cap.PII(` |
| Pii.ParsePrintedPii | crates/lazuli_analyzer/src/types.rs:310-373 | printing a capability, quoted or not, and reading it gives it back, for values the syntax can carry |
| Pii.ExtractFieldLevelPiiDecorator | crates/lazuli_analyzer/src/resource_p2.rs:41-61 | the method computes the text without the marker and the capability |
| Pii.ExtractInserted | crates/lazuli_analyzer/src/resource_p2.rs:41-61 | taking out an inserted marker gives the text around it, trimmed and joined by one space, and the capability; a leading or unreadable marker stays |
| FieldTail.PeelTrailingFieldModifiers | crates/lazuli_analyzer/src/resource_p2.rs:11-34 | the loop ends and computes the peeled type and flags |
| FieldTail.PeelPrinted | crates/lazuli_analyzer/src/resource_p2.rs:11-34 | peeling a type followed by any modifiers, in any order and repetition, gives the type and says which were there |
| FieldTail.PeelSplits | crates/lazuli_analyzer/src/resource_p2.rs:11-34 | conversely, every text is its peeled type, modifiers that account for the flags, and spaces, and nothing more can be peeled |
| FieldTail.FieldTailRecovered | crates/lazuli_analyzer/src/resource_p1.rs:365-394 | extraction and then peeling recover type, capability and flags when a marker stands anywhere among the modifiers |
| Expr.SplitFnCallArgs | crates/lazuli_analyzer/src/expr.rs:167-200 | the byte loop yields the trimmed non-blank pieces between top-level commas |
| Expr.SplitJoinedArgs | crates/lazuli_analyzer/src/expr.rs:167-200 | splitting undoes joining balanced arguments with commas, whatever spaces are around them |
| Expr.CallIsParsed | crates/lazuli_analyzer/src/expr.rs:116-165 | a printed call is read as its name and its argument texts |
| Expr.QuoteFreeIsSolid | crates/lazuli_analyzer/src/expr.rs:167-200 | a string without quotes stays one argument, whatever commas and parentheses it holds |
| Expr.LowerPrinted | crates/lazuli_analyzer/src/expr.rs:88-165 | reading a printed tree, calls nested to any depth, gives the tree back; a string that is no argument may hold anything |
| Expr.BareReference | crates/lazuli_analyzer/src/expr.rs:116-143 | a bare `@fn.name` is a call without arguments; a dotted or missing name leaves a path |
| Expr.EmptyParentheses | crates/lazuli_analyzer/src/expr.rs:144-165 | with empty parentheses the call has no arguments, and the name may hold dots |
| Expr.ReadersAgreeIff | crates/lazuli_analyzer/src/expr.rs:223-238 | the reader without calls agrees with the other exactly on literals and on paths without spaces around segments |
| Comparisons.FindTopLevelOperator | crates/lazuli_analyzer/src/helpers.rs:203-220 | the loop computes the search |
| Comparisons.FindIsFirst | crates/lazuli_analyzer/src/helpers.rs:203-220 | what is found is the first place outside quotes where the operator stands, if there is one |
| Comparisons.ParsersAgree | crates/lazuli_analyzer/src/query.rs:212-248 | filter and predicate parser accept the same texts, comment lines aside, with the same operator and operand texts |
| Comparisons.OperandsDifferIff | crates/lazuli_analyzer/src/query.rs:253-287 | the right operands differ exactly on a bare name, the left ones exactly on literals |
| Comparisons.ParsePrintedComparison | crates/lazuli_analyzer/src/agent.rs:333-365 | a printed comparison, with any spacing and any of the six operators, parses back to the same three parts |
| Validators.ValidateConstraintPatternCompile | crates/lazuli_analyzer/src/resource_validators.rs:216-290 | the loops give the verdict of the parity test and the scan |
| Validators.TrailingParityIsDangling | crates/lazuli_analyzer/src/resource_validators.rs:225-237 | the parity test fires exactly when the scan would meet a backslash with nothing after it |
| Validators.AcceptedIffGrammar | crates/lazuli_analyzer/src/resource_validators.rs:216-290 | accepted are exactly the texts of a grammar of literals, escaped pairs, closed classes and nested groups |
| Validators.RangeCheckIsExact | crates/lazuli_analyzer/src/resource_validators.rs:65-90 | for constraints without a conflicting pair, rejected are exactly those that no 64-bit integer meets |
| Validators.IntegerDefaultIffInRange | crates/lazuli_analyzer/src/resource_validators.rs:342-446 | a printed integer default passes exactly when it is in range, so an empty range admits none |
| Validators.TextDefaultIffLengthInRange | crates/lazuli_analyzer/src/resource_validators.rs:352-416 | a default that is no integer, without length, in or pattern rule, passes exactly when min and max admit its number of characters; `between` never fires on it |
| Validators.TextDefaultIsRejected | crates/lazuli_analyzer/src/resource_validators.rs:338-341 | three characters against `min 5` |
| Rbac.CatalogPermissions | crates/lazuli_analyzer/src/rbac.rs:56-76 | first occurrences stay, repeats are reported |
| Rbac.CatalogRoles | crates/lazuli_analyzer/src/rbac.rs:78-121 | first declarations stay; repeats and unknown grants are reported |
| Rbac.CheckInherits | crates/lazuli_analyzer/src/rbac.rs:123-136 | unknown parents are reported |
| Rbac.DetectCycles | crates/lazuli_analyzer/src/rbac.rs:138-170 | the walks stop, and one issue comes from each role whose walk never reaches an end |
| Rbac.ChainIsShort | crates/lazuli_analyzer/src/rbac.rs:138-170 | a walk without repetition has at most one name more than there are roles |
| Rbac.LoopIffNeverEnds | crates/lazuli_analyzer/src/rbac.rs:138-170 | a name comes back exactly on the walks that never end |
| Rbac.KeysOfDistinctRoles | crates/lazuli_analyzer/src/rbac.rs:149-160 | the dedupe keys of two roles are always different |
| Rbac.CycleOfIsOneCycle | crates/lazuli_analyzer/src/rbac.rs:138-170 | a walk that never ends reaches one cycle, on which every name inherits from every other |
| Rbac.OneReportPerCycleIff | crates/lazuli_analyzer/src/rbac.rs:149-160 | there are never fewer reports than cycles, and as many exactly when every looping role inherits from itself |
| Rbac.TwoRoleCycleIsReportedTwice | crates/lazuli_analyzer/src/rbac.rs:149-160 | two roles that inherit from each other: one cycle, two reports |
| Rbac.SomeLoopIffCycle | crates/lazuli_analyzer/src/rbac.rs:138-170 | there is something to report exactly when the inheritance graph has a cycle |
| Rbac.OnCycleReentersAtStart | crates/lazuli_analyzer/src/rbac.rs:138-170 | a role on a cycle is itself the name that is re-entered |
| Rbac.ClosureOf | crates/lazuli_analyzer/src/rbac.rs:172-213 | the worklist ends with exactly the closure set, without duplicates |
| Rbac.ClosureSolves | crates/lazuli_analyzer/src/rbac.rs:172-213 | closures solve "own grants within the catalog plus the parent's closure", cycles and unknown parents included |
| Rbac.ClosureIsLeast | crates/lazuli_analyzer/src/rbac.rs:172-213 | and are the least solution |
| Rbac.ClosureInherits | crates/lazuli_analyzer/src/rbac.rs:172-213 | a role has every permission of its parent |
| Rbac.ComputeClosures | crates/lazuli_analyzer/src/rbac.rs:172-213 | every role of the catalog gets its closure |
| Rbac.GrantsAllCoversCatalog | crates/lazuli_analyzer/src/rbac.rs:215-234 | when a role grants everything no permission is unused |
| Rbac.ReportUnused | crates/lazuli_analyzer/src/rbac.rs:215-234 | so skipping the check then changes no result |
| Rbac.AnalyzeRbacCatalog | crates/lazuli_analyzer/src/rbac.rs:49-256 | the whole analysis: no catalog exactly for an empty package, first occurrences, closures, and the issues in order |
| Rbac.RoleGrantsPermissionIff | crates/lazuli_analyzer/src/rbac.rs:258-265 | the query says yes exactly for declared roles that reach a grant |
| Watch.DebounceBuffer.Push | crates/lazuli_cli/src/cmd_test_watch.rs:222-245 | the path goes to the end of its layer's bucket, whose clock is reset |
| Watch.DebounceBuffer.DrainReady | crates/lazuli_cli/src/cmd_test_watch.rs:247-270 | ready buckets are handed over in order, the others stay |
| Watch.DebounceBuffer.NextTick | crates/lazuli_cli/src/cmd_test_watch.rs:272-295 | the shortest remaining window, none exactly when nothing is pending |
| Watch.NextTickIsExact | crates/lazuli_cli/src/cmd_test_watch.rs:272-295 | with no new event something is ready exactly when the announced wait is over |
| Watch.StagedAppends | crates/lazuli_cli/src/cmd_test_watch.rs:222-245 | staging appends to the pending paths of that layer and of no other |
| Watch.DrainSplits | crates/lazuli_cli/src/cmd_test_watch.rs:247-270 | draining splits each layer's pending paths into those handed over and those that stay |
| Watch.RunWatchLoop | crates/lazuli_cli/src/cmd_test_watch.rs:324-343 | the loop reaches the state of the turn-by-turn run, up to the first failed dispatch |
| Watch.NothingLostOrReordered | crates/lazuli_cli/src/cmd_test_watch.rs:195-343 | over every run, per layer: paths handed over (and, after a failure, dropped) followed by those pending are the paths received, in order and once each; one bucket per layer |
| Watch.FlushedOnlyWhenQuiet | crates/lazuli_cli/src/cmd_test_watch.rs:247-270 | every call of a run was made in a turn, from what that turn flushed, by which every event of its layer was at least the window old |
| Watch.TimeoutMakesProgress | crates/lazuli_cli/src/cmd_test_watch.rs:324-343 | waiting the announced time in vain dispatches something |
| Migrate.DiscoverMigrations | crates/lazuli_cli/src/migrate.rs:92-100 | generated scripts are listed first, then manual ones |
| Migrate.DiscoveryIsLastListed | crates/lazuli_cli/src/migrate.rs:102-158 | each version once, in order, with the last script listed for each direction |
| Migrate.CollectLookup | crates/lazuli_cli/src/migrate.rs:125-141 | one script changes its own version's entry and no other |
| Migrate.Database.EnsureTable | crates/lazuli_cli/src/migrate.rs:299-306 | creating the ledger table is a call that may fail |
| Migrate.Database.AppliedVersions | crates/lazuli_cli/src/migrate.rs:308-319 | reading the ledger is a call that may fail, and otherwise yields all versions |
| Migrate.Database.AppliedVersionsDesc | crates/lazuli_cli/src/migrate.rs:321-332 | the same for the newest versions, newest first, as many as asked for |
| Migrate.Database.RunFile | crates/lazuli_cli/src/migrate.rs:354-356 | the next call; it may fail, and then has run no script |
| Migrate.Database.InsertApplied | crates/lazuli_cli/src/migrate.rs:334-342 | the next call; it may fail, and otherwise records one version |
| Migrate.Database.DeleteApplied | crates/lazuli_cli/src/migrate.rs:344-352 | the next call; it may fail, and otherwise erases one version |
| Migrate.MigrateUp | crates/lazuli_cli/src/migrate.rs:162-198 | wherever the run stops, the ledger has gained a prefix of the pending versions and at most one script has run unrecorded; it succeeds exactly when no call failed and it was confirmed or nothing was pending, makes no call after a failed one, and keeps the ledger in order |
| Migrate.UpResumes | crates/lazuli_cli/src/migrate.rs:162-198 | what is pending next is what was not recorded |
| Migrate.MigrateDown | crates/lazuli_cli/src/migrate.rs:200-253 | nothing runs unless every version to roll back has a down script; wherever the run stops, the newest versions up to there are erased; it succeeds exactly when no call failed, no script is missing and it was confirmed, or nothing was to do |
| Migrate.RollBack | crates/lazuli_cli/src/migrate.rs:200-253 | the loop erases from the newest on, stops at the first failed call, and succeeds exactly when none failed |
| Migrate.RunMigrate | crates/lazuli_cli/src/migrate.rs:46-90 | the whole command: the table is created first, a check-only project is refused untouched, and the run does what the chosen action does |
| Migrate.DownUndoesUp | crates/lazuli_cli/src/migrate.rs:162-253 | rolling back as many versions as were applied on top gives the ledger back, in opposite order |
| Migrate.DownUndoesUpIff | crates/lazuli_cli/src/migrate.rs:162-253 | it does exactly when every applied version is newer than the whole ledger |
| Migrate.UpThenDown | crates/lazuli_cli/src/migrate.rs:162-253 | an up run and the matching down run succeed exactly when no call fails and every pending file has a down script; then the ledger is as it was, and the up scripts and then the down scripts, last applied first, have run |
| SourceMap.BuildSourceFile | crates/lazuli_analyzer/src/source_map.rs:51-69 | the byte loop builds the stored table for every text: line starts cut to 32 bits and the capped end; below 4 GiB the line starts and the end themselves |
| SourceMap.BuiltTableIsAscending | crates/lazuli_analyzer/src/source_map.rs:51-69 | the table is sorted, starts at zero and ends at the length |
| SourceMap.BinarySearch | crates/lazuli_analyzer/src/source_map.rs:71-96 | finds the offset, or in a sorted table its insertion point |
| SourceMap.Resolve | crates/lazuli_analyzer/src/source_map.rs:71-96 | on any table unresolved exactly for an unknown file, an empty table or an offset past the last entry; in a sorted one the 32-bit column overflows exactly before the first entry or at the largest offset on a single line, and otherwise line start plus column minus one is the offset |
| SourceMap.LookupCountsNewlines | crates/lazuli_analyzer/src/source_map.rs:71-96 | line is one plus the newlines before the offset, column one plus the bytes since the last; at the end of a text that ends in a newline the position stays on the last line |
| SourceMap.PositionsIncrease | crates/lazuli_analyzer/src/source_map.rs:71-96 | later offsets have later positions, the end included |
| SourceMap.ResolveInText | crates/lazuli_analyzer/src/source_map.rs:51-96 | building and resolving together: the counted position for every offset of the text, its end included, except that the column overflows at the end of a text of 2^32-1 bytes without an earlier newline |
| GoWork.ReadText | crates/lazuli_cli/src/go_work_io.rs:77-153 | the lines and the final newline determine the text and are read back from it |
| GoWork.JoinedText | crates/lazuli_cli/src/go_work_io.rs:136-140 | joining the kept lines and restoring the final newline gives the text of `Joined`, where a last empty line is lost |
| GoWork.StripRuntimeReplaceDirective | crates/lazuli_cli/src/go_work_io.rs:77-153 | the loop deletes exactly the runtime `replace` lines, and the closed blocks they leave without a line, and joins the rest |
| GoWork.Rules.StripKeepsIff | crates/lazuli_cli/src/go_work_io.rs:77-153 | a file is left alone exactly when a state machine over its lines drops none |
| GoWork.Rules.ScanIsRemaining | crates/lazuli_cli/src/go_work_io.rs:77-153 | the one-pass scan with its buffer equals parsing into blocks, stripping and printing |
| GoWork.Rules.ParseYieldsParsed | crates/lazuli_cli/src/go_work_io.rs:77-153 | parsing into lines and blocks loses nothing |
| GoWork.Rules.ParseUnparse | crates/lazuli_cli/src/go_work_io.rs:77-153 | printing blocks and parsing them gives the blocks back |
| GoWork.Rules.StripIdempotent | crates/lazuli_cli/src/go_work_io.rs:77-153 | a second strip removes nothing |
| GoWork.Rules.StripLeavesNoRuntimeReplace | crates/lazuli_cli/src/go_work_io.rs:77-153 | no runtime `replace` is left |
| GoWork.UseRules.ExtractGoWorkUseEntries | crates/lazuli_cli/src/go_work_io.rs:190-221 | the loop yields the entries of single lines and blocks, in order |
| GoWork.UseRules.FindGoWorkUseBlockClose | crates/lazuli_cli/src/go_work_io.rs:223-259 | the first line that closes a `use` block, with its indent, if there is one |
| GoWork.UseRules.AddMissingGoWorkUseEntries | crates/lazuli_cli/src/go_work_io.rs:155-188 | missing entries go before that line, or into a new block at the end, which ends in a newline |
| GoWork.UseRules.MergeKeepsEntries | crates/lazuli_cli/src/go_work_io.rs:155-188 | every old entry is kept, in order |
| GoWork.UseRules.MergeAddsMissing | crates/lazuli_cli/src/go_work_io.rs:155-188 | exactly the missing entries are put in, in one place |
| GoWork.UseRules.MergeSettles | crates/lazuli_cli/src/go_work_io.rs:155-188 | where the missing entries are readable, every required entry is there after a merge and a second merge adds nothing |
| GoWork.UseRules.MergeGrows | crates/lazuli_cli/src/go_work_io.rs:155-188 | a merge after which an entry is still missing is followed by one that adds lines, whichever branch it took |
| Regeneration.MergeSettlesIff | crates/lazuli_cli/src/go_work_io.rs:155-188 | distinct entries as files give them settle exactly when `)` is not among the missing ones; where it is, every second merge adds lines |
| Regeneration.SomeUnread | crates/lazuli_cli/src/go_work_io.rs:155-259 | among distinct entries put in together with `)`, one ending in `)` is read from none of the new lines |
| Regeneration.DuplicatesMaySettle | crates/lazuli_cli/src/go_work_io.rs:155-188 | with an entry required twice a merge can settle although `)` was missing |
| GoWork.GoWorkRulesAreSound | crates/lazuli_cli/src/go_work_io.rs:155-259 | the code's predicates on single lines meet what the merge lemmas ask |
| GoWork.ExtractedEntriesAreReadable | crates/lazuli_cli/src/go_work_io.rs:190-221 | every entry read from a file reads back from a block line, `)` excepted |
| GoWork.WriteGoWorkPreservingEntries | crates/lazuli_cli/src/go_work_io.rs:32-60 | strip, then merge in the generated entries; a missing file is written as generated |
| Regeneration.HarmlessSettles | crates/lazuli_cli/src/go_work_io.rs:32-60 | over two whole regenerations, strip and merge both times: with harmless entries the second writes what the first wrote, over every existing file, or one newline less where the text ends in two |
| Regeneration.GoWorkRegenerationSettlesIff | crates/lazuli_cli/src/go_work_io.rs:32-60 | with distinct entries that holds over every existing file exactly when no entry is `)`, opens a `replace` block or is a runtime replace clause |
| Regeneration.HarmfulFileNeverSettles | crates/lazuli_cli/src/go_work_io.rs:32-60 | for every other entry, a file over which the second regeneration differs |
| Regeneration.ReplaceEntryIsStripped | crates/lazuli_cli/src/go_work_io.rs:32-60 | the entry `replace (`: its line is stripped with the block's end, and a new block is appended |
| Regeneration.FirstWriteSettlesIff | crates/lazuli_cli/src/go_work_io.rs:32-60 | a file written as generated is left as it is exactly when the strip leaves it alone |
| Regeneration.TrailingBlanksShrink | crates/lazuli_cli/src/go_work_io.rs:136-140 | a text of three newlines loses one at each regeneration |
| Casing.PascalToSnake | crates/lazuli_analyzer/src/helpers.rs:263-288 | the loop computes the snake-case text |
| Casing.SnakeToPascal | crates/lazuli_analyzer/src/helpers.rs:294-312 | the loop computes the Pascal-case text |
| Casing.SnakeIdempotent | crates/lazuli_analyzer/src/helpers.rs:263-288 | converting twice is converting once, on every text |
| Casing.CasesInvertIff | crates/lazuli_analyzer/src/helpers.rs:263-312 | the conversions undo each other, in both orders, exactly on names that lose no word boundary |
| Casing.LongWordsInvert | crates/lazuli_analyzer/src/helpers.rs:263-312 | they do on every name whose words have at least two characters |
| Casing.SnakeOfPascalName | crates/lazuli_analyzer/src/helpers.rs:263-288 | a Pascal-case name becomes its words joined by `_` exactly then, and a shorter text otherwise |
| Restrict.ApplyRestrictOnDeleteScopes | crates/lazuli_analyzer/src/resource_p1.rs:200-213 | guards are rewritten in place, each from the index alone |
| Restrict.ResolveRestrictOnDeleteScopes | crates/lazuli_analyzer/src/resource_p1.rs:179-187 | the per-feature pass applies the index of the feature's own resources |
| Restrict.ResolveRestrictOnDeleteScopesModule | crates/lazuli_analyzer/src/lib.rs:225-235 | the module pass applies one index of all features' resources |
| Restrict.GuardGetsItsSchema | crates/lazuli_analyzer/src/resource_p1.rs:200-228 | with unique names a guard gets the flags of its relation's schema, whichever case it was written in, and nothing else changes |
| Restrict.UnresolvedIsUntouched | crates/lazuli_analyzer/src/resource_p1.rs:200-213 | a guard whose relation does not resolve is left as it is |
| Restrict.ModulePassIdempotent | crates/lazuli_analyzer/src/lib.rs:225-235 | a second module pass changes nothing |
| Restrict.ModulePassAbsorbs | crates/lazuli_analyzer/src/lib.rs:225-235 | an earlier per-feature pass makes no difference |
| Restrict.FeatureFlagsKeptIff | crates/lazuli_analyzer/src/lib.rs:214-235 | flags derived within the feature are kept exactly when the last resource of that snake-cased name in the module has the scope of the feature's last one |
| Restrict.SameNameElsewhereOverrides | crates/lazuli_analyzer/src/lib.rs:214-235 | two features with one resource name and different schemas: the module pass replaces the flags |
| Restrict.UniqueNamesAgree | crates/lazuli_analyzer/src/lib.rs:219-235 | it has when resource names are unique across the module |
| Compatibility.NotBreakingIff | crates/lazuli_changelog/src/lib.rs:321-352 | on typed inputs nothing is reported exactly when every payload accepted before is accepted now |
| Compatibility.NotBreakingTransitive | crates/lazuli_changelog/src/lib.rs:321-352 | compatible steps make a compatible whole |
| Compatibility.UntypedHidesBreak | crates/lazuli_changelog/src/lib.rs:350 | an untyped version in between hides a removed field |
| Compatibility.SilenceCarriesIff | crates/lazuli_changelog/src/lib.rs:321-352 | after a silent step, later silence still speaks for the start exactly when the step did not go from typed to untyped |
| Compatibility.UnchangedIsSilentIff | crates/lazuli_changelog/src/lib.rs:331-346 | an unchanged input is reported exactly when a required slot repeats the name of an earlier optional one |
| Compatibility.RepeatedSlotIsReported | crates/lazuli_changelog/src/lib.rs:331-346 | an optional slot followed by a required one of the same name |
| Compatibility.AdditionIff | crates/lazuli_changelog/src/lib.rs:354-367 | where no break is reported, an addition is reported exactly when more names are known, and then more payloads are accepted |
| Changelog.IndexCommands | crates/lazuli_changelog/src/lib.rs:273-281 | the nested loops build the index of all commands |
| Changelog.IndexHoldsLast | crates/lazuli_changelog/src/lib.rs:273-281 | the index is in key order and holds the last command of each feature and name |
| Changelog.Diff | crates/lazuli_changelog/src/lib.rs:119-178 | the two loops fill the five sections |
| Changelog.DiffBothWays | crates/lazuli_changelog/src/lib.rs:119-178 | swapping the versions swaps added and removed |
| Changelog.OnlyInMembers | crates/lazuli_changelog/src/lib.rs:133-136 | added (and removed) are exactly the operations on one side only |
| Changelog.CommandsBalance | crates/lazuli_changelog/src/lib.rs:119-178 | old commands plus added are new commands plus removed |
| Changelog.BreakingMembers | crates/lazuli_changelog/src/lib.rs:139-144 | the breaking section holds exactly the classifier's verdicts on shared commands |
| Changelog.CompatibleIff | crates/lazuli_changelog/src/lib.rs:119-178 | nothing removed and nothing breaking means that every old command is there and breaks no caller |
| Changelog.CompatibleTransitive | crates/lazuli_changelog/src/lib.rs:119-178 | along typed versions, step by step compatible is compatible end to end |

## Left out

- Text outside ASCII: the scanners index bytes, and the model's characters are bytes.
- Carriage returns: a `go.work` line is what is left after its line end, and the strip writes newlines.
- Files, processes, the environment, `clap` dispatch, threads and channels: their results are parameters.
- Spans, messages, reasons as prose, and the rendering of the changelog and of deprecation replacements.
- Coverage and profile arithmetic on `f64`, where rounding would be the point.
- The field-by-field lowerings, the emitters, the type lifter, event hoisting and enum lifting: they copy
  fields, and would add easy members.
- Migrate.Database.RunFile: a failing script may have run in part; the model says only that it is not counted
  as run. The ledger is read in byte order, the order of a C collation; other collations are not modelled.
- Migrate.MigrateUp: the confirmation prompt is a boolean; the status listing is not modelled.
- Pii.ParsePrintedPii: values with brackets, commas, quotes or backslashes are excluded, because the argument
  syntax has no way to write them.
- Expr.LowerPrinted: string arguments that the splitter would cut, such as one with a comma between two quotes,
  and paths that read as another literal or as a call, are excluded, because the syntax has no way to write them.
- Paths: links in the file system; `NormalizeDenotesSamePlace` and `RelativeLeadsIff` are about trees without
  them. Windows paths of the verbatim form `\\?\`, where `..` is an ordinary name, are not modelled.
- Which types a constraint applies to (`crates/lazuli_analyzer/src/resource_validators.rs:105-203`): a table
  of types.
