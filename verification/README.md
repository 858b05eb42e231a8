# Verified model of the repository's checking and gating scripts

The repository guards its compiler and garbage collector with Python tooling: lexers that look for
forbidden code shapes, closures that decide what CI has to test, ratchets and gates over test results,
benchmarks and collector traces, and a bot that keeps failure issues. A gate that is wrong in the
quiet direction stops guarding without anyone noticing, so this project models the logic of eleven
of these scripts in Dafny and proves what they are for, over all inputs and all runs.

| file | script | subject |
|---|---|---|
| `MaskScanner.dfy`, `MaskProperties.dfy` | `scripts/check_gc_scanner_latches.py` | blanking comments and literals of Rust text in place |
| `Brackets.dfy`, `BraceSpans.dfy` | the same, `scripts/check_cross_thread_promise_provenance.py`, `scripts/check_thread_locals.py` | bracket matching against a stack parser; latches outside thread-local blocks |
| `Glob.dfy` | `scripts/check_test_registration.py` | glob to regular expression against a segment-list matcher |
| `Closures.dfy`, `TestScope.dfy`, `TestModules.dfy` | `scripts/ci_test_scope.py`, `scripts/check_thread_locals.py` | two least closed sets, and package selection |
| `Sorting.dfy`, `RobustStatistics.dfy`, `BenchmarkGate.dfy` | `benchmarks/benchmark_gate.py` | median, MAD, noise allowance, verdict |
| `GapSnapshot.dfy` | `scripts/gap_snapshot.py` | sharded snapshot updates |
| `FailureWatch.dfy` | `scripts/gate_failure_watch.py` | one issue per failing workflow, over every run of events |
| `Tally.dfy`, `GcTotals.dfy`, `GcGates.dfy`, `GcGateMeaning.dfy` | `scripts/copied_minor_fallback_report.py` | trace totals as a monoid, and what gated totals say of single cycles |
| `Shards.dfy` | `scripts/ci_cargo_test_shard.py` | round-robin sharding |
| `PromiseProvenance.dfy` | `scripts/check_cross_thread_promise_provenance.py` | name resolution by position against a straight-line interpreter |
| `AddrClass.dfy` | `scripts/addr_class_inventory.py` | reflected brace depth; two guard searches |

`Option.dfy`, `Text.dfy` and `Sequences.dfy` hold shared helpers. `dafny verify dfyconfig.toml` checks
everything.

Where a script walks files, runs a command or calls an API, the result is an input of the model.
Sets and dictionaries whose order the script does not control are visited in an arbitrary order, so
every result holds for all orders. Statistics are over exact reals.

## Where the code and its documentation differ

The model follows the code.

- `mask_non_code` says it preserves newlines. A character literal that spans a newline loses it;
  `NewlinesPreserved` gives the exact condition.
- `ci_test_scope.py` says any Markdown file selects nothing. Below `scripts/`, `.github/` or `crates/`
  it does select; see `MarkdownIsNotAlwaysIgnored`.
- `analyze_source` means to resolve aliases with shadowing. A later promise does not shadow an alias
  of the same name, and an alias of an alias is not followed; two example lemmas show a false alarm
  and a miss. `FoundIsSite` gives the exact condition for a name, `AlwaysRightIff` for a whole call.
- `evaluate_regressions` asks the peers about regressions but not about improvements, so an
  improvement can vanish, rather than turn into a regression, when the artifacts are exchanged;
  `SwapWithPeers` says exactly when, and `PeersCanHideTheExchange` shows it on artifacts the gate accepts.
- The observer finds a workflow's issue by searching titles for its marker. With brackets in a path a
  title can contain a foreign marker; `AlwaysShowsHistoryIff` gives the exact condition on the configuration.
- A glob that ends in `**` accepts only directories written with a trailing slash (and the empty path);
  `FileBelowIsRejected` shows the files it misses.

## Model

| member | source | states |
|---|---|---|
| `MaskScanner.MaskNonCode` | scripts/check_gc_scanner_latches.py:47-119 | The in-place scanner terminates on every text and produces the token-by-token mask. |
| `MaskScanner.BlankRange` | scripts/check_gc_scanner_latches.py:83-85 | Overwriting a range blanks that token and nothing else. |
| `MaskScanner.SkipBlockComment` | scripts/check_gc_scanner_latches.py:60-70 | The nesting loop stops where the comment closes. |
| `MaskScanner.SkipString` | scripts/check_gc_scanner_latches.py:90-97 | The escape-aware loop stops where the string closes. |
| `MaskScanner.RawClose` | scripts/check_gc_scanner_latches.py:77-82 | A raw string ends at the first marker with its number of hashes, or at the end of the text. |
| `MaskProperties.MaskAt` | scripts/check_gc_scanner_latches.py:47-119 | Each masked character is decided by the token it lies in: code is kept, everything else is kept or blanked. |
| `MaskProperties.MaskIsOpenerFree` | scripts/check_gc_scanner_latches.py:47-119 | No comment, string, raw string or complete character literal opens anywhere in masked text, and no quote is left. |
| `MaskProperties.MaskIdempotent` | scripts/check_gc_scanner_latches.py:47-119 | Masking changes exactly the texts in which something opens; masking twice is masking once. |
| `MaskProperties.NewlinesPreserved` | scripts/check_gc_scanner_latches.py:104-117 | All newlines survive if and only if no character literal the scanner meets spans one. |
| `MaskProperties.NewlineLostExample` | scripts/check_gc_scanner_latches.py:104-117 | A quote, a newline and a quote: the newline is lost. |
| `MaskProperties.LineNumberOfMask` | scripts/check_gc_scanner_latches.py:156-157 | Line numbers computed on masked text are never larger, and equal under the same condition. |
| `MaskProperties.StringClosesAtFirstUnescapedQuote` | scripts/check_gc_scanner_latches.py:89-102 | A string closes at the first quote preceded by an even number of backslashes. |
| `MaskProperties.StringLiteralMasked` | scripts/check_gc_scanner_latches.py:89-102 | The literal spelling any text is masked as a whole and the rest is masked as if it stood alone. |
| `MaskProperties.RawStringMasked` | scripts/check_gc_scanner_latches.py:77-87 | The same for raw strings and raw byte strings with up to sixteen hashes, whatever backslashes they contain. |
| `MaskProperties.NestedCommentSkipped` | scripts/check_gc_scanner_latches.py:59-75 | Inside an open block comment a whole comment is skipped without a change of depth. |
| `MaskProperties.CommentMasked` | scripts/check_gc_scanner_latches.py:59-75 | A closed block comment is masked as a whole and the rest as if it stood alone. |
| `MaskProperties.MaskFromIsMaskOfRest` | scripts/check_gc_scanner_latches.py:51-119 | The scanner has no memory: from a token boundary on, the mask is that of the rest of the text. |
| `Brackets.MatchingDelimiter` | scripts/check_gc_scanner_latches.py:122-131 | The least index that closes the opener, and nothing exactly when there is none. |
| `Brackets.StackMembership` | scripts/check_gc_scanner_latches.py:122-131 | An opener is on a stack parser's stack exactly while its balance stays positive. |
| `Brackets.MatchIsStackPop` | scripts/check_gc_scanner_latches.py:122-131 | The matcher answers `c` for `o` if and only if the parser pops `o` at `c`. |
| `Brackets.SpansNest` | scripts/check_gc_scanner_latches.py:122-131 | Spans of two openers of one kind are nested or disjoint. |
| `Brackets.JointIsEachKind` | scripts/check_gc_scanner_latches.py:122-131 | As long as one stack for all kinds goes on, its part of one kind is the stack of that kind alone. |
| `Brackets.AllKindsNestIff` | scripts/check_gc_scanner_latches.py:122-131 | Spans of all three kinds are nested or disjoint if and only if the parser with one stack accepts the text. |
| `Brackets.MixedSpansCross` | scripts/check_gc_scanner_latches.py:122-131 | Spans of different kinds of brackets can cross, and then a parser with one stack for all kinds gives up. |
| `Brackets.ThreadLocalSpans` | scripts/check_gc_scanner_latches.py:134-141 | Exactly the closed blocks of the given openers, in their order and as often as given. |
| `Brackets.SpanTestIsInside` | scripts/check_gc_scanner_latches.py:150-151 | The offset test of the latch collector is the parser's notion of lying inside a block. |
| `Brackets.ProcessLatches` | scripts/check_gc_scanner_latches.py:144-153 | Exactly the latch-typed statics that lie in no closed thread-local block. |
| `BraceSpans.MatchBrace` | scripts/check_cross_thread_promise_provenance.py:69-94 | String-aware matching is plain matching on the text with its string literals blanked. |
| `BraceSpans.QuoteFreeMatch` | scripts/check_cross_thread_promise_provenance.py:69-94 | Without quotes it is `matching_delimiter` plus one, or the text length. |
| `BraceSpans.MaskedTextMatch` | scripts/check_cross_thread_promise_provenance.py:69-94 | On masked text the two matchers always agree. |
| `BraceSpans.BraceSpan` | scripts/check_thread_locals.py:158-171 | The first brace from the start, and its closer or the text length; nothing when there is no brace. |
| `Glob.Split` | scripts/check_test_registration.py:146 | The parts are slash-free and joining them gives the text back. |
| `Glob.FnmatchPath` | scripts/check_test_registration.py:139-159 | The translation loop and the full match compute the language of the pattern's expression. |
| `Glob.SegmentCorrect` | scripts/check_test_registration.py:152-154 | A part's expression accepts exactly the slash-free texts the wildcard matcher accepts. |
| `Glob.PartsCorrect` | scripts/check_test_registration.py:148-156 | Before the last slash is stripped, exactly the terminated segment lists that match are accepted. |
| `Glob.PathMatchesSegments` | scripts/check_test_registration.py:139-159 | If the pattern does not end in `**`, a path is accepted if and only if its segments match the pattern's. |
| `Glob.TrailingDoubleStar` | scripts/check_test_registration.py:149-158 | If it does, exactly terminated paths whose segments match are accepted. |
| `Glob.FileBelowIsRejected` | scripts/check_test_registration.py:149-158 | A file below a directory is rejected by that directory followed by `**`, although its segments match. |
| `Glob.TestFilesRejected` | scripts/check_test_registration.py:149-158 | For one: `test-files/**` rejects `test-files/a.ts`. |
| `Glob.StarStaysInSegment` | scripts/check_test_registration.py:142-144 | Without `**`, an accepted path has as many segments as the pattern. |
| `Closures.ClosureMonotone` | scripts/ci_test_scope.py:110-132 | The closure is unique, hence independent of every visiting order, and monotone in the seeds. |
| `Closures.ClosureIdempotent` | scripts/ci_test_scope.py:110-132 | Closing twice is closing once. |
| `Closures.ClosureOfUnion` | scripts/ci_test_scope.py:110-132 | The closure distributes over the union of seeds. |
| `Closures.ClosureIsReachability` | scripts/ci_test_scope.py:110-132 | Its members are exactly the ends of walks from the seeds. |
| `TestScope.BuildReverseDeps` | scripts/ci_test_scope.py:116-122 | The table holds exactly the direct dependents among workspace members. |
| `TestScope.ReverseDepClosure` | scripts/ci_test_scope.py:110-132 | The least set with the seeds closed under non-leaf dependents, on any graph; every affected package is popped exactly once. |
| `TestScope.RuntimeLinkAugment` | scripts/ci_test_scope.py:78-93 | `perry` is added exactly when a runtime-linked crate is among the seeds. |
| `TestScope.SelectPackages` | scripts/ci_test_scope.py:201-231 | All testable packages when a path forces it, else the testable part of the closure. |
| `TestScope.SelectionMonotone` | scripts/ci_test_scope.py:201-231 | More changed paths never drop a package; order and repetition do not matter. |
| `TestScope.SelectedExactly` | scripts/ci_test_scope.py:210-231 | A package is selected if and only if it is testable and reachable from a changed crate. |
| `TestScope.ChangedCrateCovered` | scripts/ci_test_scope.py:213-217 | A changed crate's testable non-leaf transitive dependents are always selected. |
| `TestScope.UnknownPathSelectsAll` | scripts/ci_test_scope.py:211-225 | Infrastructure, unknown crate directories and unrecognised paths select everything. |
| `TestScope.MarkdownIsNotAlwaysIgnored` | scripts/ci_test_scope.py:46-53 | A Markdown path selects nothing if and only if it lies below no infrastructure prefix and not below `crates/`. |
| `TestModules.Sweep` | scripts/check_thread_locals.py:205-210 | One sweep adds exactly the children of the known files and reports whether it added any. |
| `TestModules.CfgTestModuleFiles` | scripts/check_thread_locals.py:174-211 | The loop terminates with the least set of files closed under `mod` edges from gated children, cyclic edges included. |
| `TestModules.TestOnlyIsReachable` | scripts/check_thread_locals.py:174-211 | A file is test-only exactly when a chain of edges leads to it from a gated child. |
| `Sorting.SortDependsOnElements` | benchmarks/benchmark_gate.py:80 | Two lists sort alike exactly when they have the same elements. |
| `RobustStatistics.MajorityConfines` | benchmarks/benchmark_gate.py:75-93 | A strict majority of samples in an interval confines the median to it and the MAD to its width, whatever the others are. |
| `RobustStatistics.DistributionIgnoresOrder` | benchmarks/benchmark_gate.py:75-93 | The summary does not depend on the order of the samples. |
| `RobustStatistics.P95Covers` | benchmarks/benchmark_gate.py:83-90 | Nineteen samples in twenty are at or below the p95; minimum and maximum bound all. |
| `BenchmarkGate.CollectRows` | benchmarks/benchmark_gate.py:512-596 | One row per benchmark in order, with regressions, improvements and failures exactly those among them. |
| `BenchmarkGate.EvaluateRegressions` | benchmarks/benchmark_gate.py:282-596 | Rejects exactly non-positive thresholds and artifacts that fail validation (metadata, sample counts, summaries, ratios, correctness references, compatibility fields); otherwise reports the comparison of every current benchmark. |
| `BenchmarkGate.OutliersCannotMatter` | benchmarks/benchmark_gate.py:450-458 | If most timings are `x` before and `y` after, the allowance is one millisecond and the speed verdict depends on `x`, `y`, threshold and peers alone. |
| `BenchmarkGate.SwapTheorem` | benchmarks/benchmark_gate.py:535-579 | Without matching peers, what is improved one way is a regression when the artifacts are exchanged. |
| `BenchmarkGate.SwapWithPeers` | benchmarks/benchmark_gate.py:550-579 | What is improved one way is a regression the other way if and only if no peer contradicts the exchange or memory grew enough. |
| `BenchmarkGate.PeersCanHideTheExchange` | benchmarks/benchmark_gate.py:550-564 | A family of pairs of valid artifacts, improved one way and unflagged the other way: Node changed by the same factor. |
| `BenchmarkGate.SelfComparison` | benchmarks/benchmark_gate.py:535-579 | An artifact compared with itself has neither regression nor improvement. |
| `GapSnapshot.MergeReport` | scripts/gap_snapshot.py:146-181 | The loop computes, for each test, its new entry, in any order of the report. |
| `GapSnapshot.DiffReport` | scripts/gap_snapshot.py:125-139 | Every divergence exactly once, of the right kind, in the order of test ids. |
| `GapSnapshot.ShardsAreOneMerge` | scripts/gap_snapshot.py:146-181 | Folding disjoint shards one by one is one merge of their union. |
| `GapSnapshot.ShardingDoesNotShow` | scripts/gap_snapshot.py:146-181 | Neither the order of the shards nor the way the run was cut shows in the snapshot. |
| `GapSnapshot.SnapshotTellsLastReport` | scripts/gap_snapshot.py:146-181 | After any sequence of updates a test on disk is absent after a pass, listed with its last other status, and untouched if it never ran. |
| `GapSnapshot.PrunedTestHasNoEntry` | scripts/gap_snapshot.py:179-181 | A test that is not on disk has no entry after an update. |
| `GapSnapshot.TriageSurvives` | scripts/gap_snapshot.py:164-178 | Until a test passes or leaves the disk, no sequence of updates changes a filled triage field. |
| `GapSnapshot.TestsAreIndependent` | scripts/gap_snapshot.py:156-181 | What happens to a test depends on its own entry and reports alone. |
| `GapSnapshot.DiffAfterMerge` | scripts/gap_snapshot.py:125-181 | Right after an update the divergences are exactly the reported failures whose file is gone. |
| `GapSnapshot.MergeIdempotent` | scripts/gap_snapshot.py:146-181 | Accepting a run twice is accepting it once. |
| `FailureWatch.MarkerIsExclusive` | scripts/gate_failure_watch.py:150-151 | The title of one workflow contains the marker of another if and only if they are the same, for bracket-free paths and names without the prefix. |
| `FailureWatch.PlainPathsAreDistinct` | scripts/gate_failure_watch.py:150-151 | So bracket-free paths and names without the prefix are a sufficient condition on the configuration. |
| `FailureWatch.BracketsConfuseMarkers` | scripts/gate_failure_watch.py:150-151 | A path that ends in the marker prefix and another watched path: one red run of it makes the tracker wrong about the other. |
| `FailureWatch.Find` | scripts/gate_failure_watch.py:222-231 | The highest-numbered issue whose title contains the marker, and nothing only if there is none. |
| `FailureWatch.Tracker.FindIssue` | scripts/gate_failure_watch.py:222-231 | The search over the tracker returns that issue. |
| `FailureWatch.Tracker.SyncFailureIssue` | scripts/gate_failure_watch.py:234-255 | Creates one issue, or retitles, rewrites and reopens the one found, and changes no other. |
| `FailureWatch.Tracker.CloseFailureIssue` | scripts/gate_failure_watch.py:258-282 | Comments on and closes an open issue, and changes no other. |
| `FailureWatch.Tracker.HandleEvent` | scripts/gate_failure_watch.py:285-322 | The whole new state of the tracker; nothing changes in a dry run. |
| `FailureWatch.ForeignIssuesUntouched` | scripts/gate_failure_watch.py:234-282 | A run never changes an issue without its own marker. |
| `FailureWatch.TrackerShowsHistory` | scripts/gate_failure_watch.py:285-322 | If no title contains a foreign marker, then over every sequence of runs each watched workflow has no issue or exactly one, with title, state, body and comments given by its own history; issues that were there before stay as they were. |
| `FailureWatch.AlwaysShowsHistoryIff` | scripts/gate_failure_watch.py:285-322 | That holds over all runs from all trackers without marked issues if and only if no title contains the marker of another workflow. |
| `FailureWatch.OneRedRunConfuses` | scripts/gate_failure_watch.py:222-255 | Otherwise a single red run on an empty tracker is enough to break it. |
| `FailureWatch.OpenIffLastDecisiveRed` | scripts/gate_failure_watch.py:302-321 | The issue is open exactly when the last eligible red or green run was red, and then tells of that run; it exists exactly when some run was red. |
| `Tally.MergeSourceTotals` | scripts/copied_minor_fallback_report.py:362-379 | Per-source sums and maxima are merged, first-seen sources from zero. |
| `Tally.AddTotals` | scripts/copied_minor_fallback_report.py:262-359 | The update computes the sum of the two totals. |
| `Tally.AddZero` | scripts/copied_minor_fallback_report.py:104-173 | Empty totals are neutral. |
| `Tally.AddCommutes` | scripts/copied_minor_fallback_report.py:262-359 | Adding totals commutes. |
| `Tally.AddAssociates` | scripts/copied_minor_fallback_report.py:262-359 | Adding totals associates. |
| `Tally.SumIgnoresOrder` | scripts/copied_minor_fallback_report.py:1049-1054 | The summary does not depend on the order of the workloads. |
| `GcTotals.AggregateConcat` | scripts/copied_minor_fallback_report.py:515-662 | Aggregation is a homomorphism: a concatenated trace has the added totals of its parts. |
| `GcTotals.CounterIsSum` | scripts/copied_minor_fallback_report.py:524-657 | Each counter is the sum of what the cycles contribute. |
| `GcTotals.ZeroSourceIsZeroEverywhere` | scripts/copied_minor_fallback_report.py:614-640 | A source's total is zero exactly when it is zero in every cycle. |
| `GcTotals.CyclesAreConserved` | scripts/copied_minor_fallback_report.py:525-547 | Cycles are the sum of the reason counts plus the malformed records. |
| `GcGates.CheckOldPageAccounting` | scripts/copied_minor_fallback_report.py:437-512 | The rules of old-page accounting a cycle breaks, in order. |
| `GcGates.AggregateWorkload` | scripts/copied_minor_fallback_report.py:515-662 | Totals, unknown reasons and broken rules of a trace. |
| `GcGates.UnknownAreMalformed` | scripts/copied_minor_fallback_report.py:528-545 | There are as many unknown-reason records as cycles without a known reason. |
| `GcGates.RunTargetCollectorGates` | scripts/copied_minor_fallback_report.py:847-960 | The whole error list: the missing strict workload, the tripped strict gates of each strict workload in order, then the tripped gates all workloads share. |
| `GcGates.NoGateErrors` | scripts/copied_minor_fallback_report.py:847-1003 | The list is empty if and only if there is a strict workload and no gate, attribution gates included, trips for any workload. |
| `GcGates.ReadAllowances` | scripts/copied_minor_fallback_report.py:1025-1040 | Rejects exactly unreadable, unknown and repeated allowances, and else builds the table. |
| `GcGates.TableHolds` | scripts/copied_minor_fallback_report.py:1025-1040 | Each accepted allowance is looked up as it was given. |
| `GcGates.ReadWorkloads` | scripts/copied_minor_fallback_report.py:1010-1023 | Rejects exactly an empty list, unreadable specifications and repeated names. |
| `GcGates.TargetCollectorRun` | scripts/copied_minor_fallback_report.py:1006-1079 | Exit code and summary as functions of command line and traces: 2 exactly for a bad command line, 0 exactly when nothing is wrong. |
| `GcGateMeaning.CleanTotalsMeanCleanCycles` | scripts/copied_minor_fallback_report.py:701-746 | The zero gates hold of the totals exactly when every cycle is clean. |
| `GcGateMeaning.OnlyReasonNone` | scripts/copied_minor_fallback_report.py:864-871 | No unknown and no other reason exactly when every cycle reported `none`. |
| `GcGateMeaning.StrictGatesMeanEveryCycle` | scripts/copied_minor_fallback_report.py:863-906 | The strict gates pass exactly when every cycle is clean, reported `none` and has no unattributed roots, some cycle copied or promoted an object, and some cycle left root evidence. |
| `GcGateMeaning.CommonGatesMean` | scripts/copied_minor_fallback_report.py:907-960 | The other gates pass exactly when every cycle has layout scans, no cycle allocates a kind without an allowance, totals are within the allowances and the pointer-read bound, and some cycle did what the name of the workload promises. |
| `GcGateMeaning.PassesMeansEveryCycle` | scripts/copied_minor_fallback_report.py:1042-1079 | Nothing is wrong with the traces if and only if there is a strict workload, every trace has cycles, and every trace meets the conditions above, stated on its cycles. |
| `GcGateMeaning.ScriptKeepsGated` | scripts/copied_minor_fallback_report.py:104-173 | The script's totals hold every counter these results rely on. |
| `Shards.ShardSize` | scripts/ci_cargo_test_shard.py:57-63 | The size of each shard in closed form. |
| `Shards.ShardingIsFair` | scripts/ci_cargo_test_shard.py:57-63 | The shards together are the targets as a multiset, and sizes differ by at most one. |
| `Shards.ShardsIgnoreOrder` | scripts/ci_cargo_test_shard.py:57-63 | A shard depends only on the multiset of names. |
| `Shards.ValidateAccepts` | scripts/ci_cargo_test_shard.py:66-94 | Validation accepts exactly when the number of shards is between one and the number of targets; its coverage and balance errors cannot occur. |
| `PromiseProvenance.LatestBefore` | scripts/check_cross_thread_promise_provenance.py:109-117 | The entry with the greatest position before the given one, or nothing only if there is none. |
| `PromiseProvenance.AnalyzeBody` | scripts/check_cross_thread_promise_provenance.py:125-155 | The table-driven loops compute the findings of the positional resolution. |
| `PromiseProvenance.EnvHoldsSite` | scripts/check_cross_thread_promise_provenance.py:109-117 | The interpreter's environment holds the promise of the binding reached from `let` to `let`. |
| `PromiseProvenance.FoundIsSite` | scripts/check_cross_thread_promise_provenance.py:139-143 | Positional resolution finds that binding if and only if the name is straight: a promise never aliased before, or an alias whose source is bound to a promise, unbound, or leads back to its own last promise. |
| `PromiseProvenance.PlainIsStraight` | scripts/check_cross_thread_promise_provenance.py:139-143 | Every name is straight where no name is bound both ways and no alias is made of an alias. |
| `PromiseProvenance.SelfAliasIsStraight` | scripts/check_cross_thread_promise_provenance.py:139-143 | A name converted under its own name is straight, too. |
| `PromiseProvenance.ResolveIsInterpreter` | scripts/check_cross_thread_promise_provenance.py:139-145 | For a straight name positional resolution finds an arena promise exactly when the interpreter's environment holds one. |
| `PromiseProvenance.FindingsOrdered` | scripts/check_cross_thread_promise_provenance.py:135-155 | Findings are in order, at most one for each sink call. |
| `PromiseProvenance.FlaggedIffArenaReachesSink` | scripts/check_cross_thread_promise_provenance.py:135-155 | A call with straight arguments is flagged if and only if one of them holds an arena promise. |
| `PromiseProvenance.AlwaysRightIff` | scripts/check_cross_thread_promise_provenance.py:135-155 | A call is judged rightly whatever constructors the promises come from if and only if its arguments are resolved to the bindings they hold. |
| `PromiseProvenance.OneArgumentIff` | scripts/check_cross_thread_promise_provenance.py:135-155 | For a call with one argument: if and only if the argument is straight. |
| `PromiseProvenance.AliasShadowsLaterPromise` | scripts/check_cross_thread_promise_provenance.py:140-143 | A name that is not straight: a safe promise is flagged. |
| `PromiseProvenance.AliasOfAliasIsMissed` | scripts/check_cross_thread_promise_provenance.py:140-143 | A name that is not straight: an arena promise is missed. |
| `AddrClass.ApplyBraceDeltas` | scripts/addr_class_inventory.py:218-235 | The loop computes the floored depth. |
| `AddrClass.DepthIsReflected` | scripts/addr_class_inventory.py:218-235 | From depth `d` the result is the larger of `d` plus the net of the text and the largest net of any suffix. |
| `AddrClass.DepthComposes` | scripts/addr_class_inventory.py:218-235 | Counting composes over concatenation. |
| `AddrClass.BandPredicateNear` | scripts/addr_class_inventory.py:177-194 | The search answers whether its window names a band predicate. |
| `AddrClass.LoneBandPredicateNear` | scripts/addr_class_inventory.py:238-264 | The same for the window that stops at a sibling conditional. |
| `AddrClass.LoneAheadIsPrefix` | scripts/addr_class_inventory.py:238-264 | The scoped window is a prefix of the generic one, and a proper one if and only if a sibling is met at depth zero. |
| `AddrClass.LoneClearsLess` | scripts/addr_class_inventory.py:177-264 | What the scoped search clears the generic one clears; without a sibling they agree. |

## Left out

- The Rust compiler, runtime and collector themselves.
- File walking, subprocesses, API calls, argument parsing and rendering: their results are inputs.
- The regular expressions of the lint scripts, except the glob translation and the raw-string opener: what they find is an input, as positions, events or predicates on lines.
- Floating point, and the rounding to six decimals of stored statistics and ratios; the standard deviation; legacy one-sample artifacts of schema 1.
- Snapshot entries and known-failure records that are not JSON objects; a missing field and a null are one value.
- `workflow_path`, the text of issue bodies and `previous_runs`: a run carries its workflow file, body and closing comment. Edits of marked issues by people are not events of the model.
- The text of workload and allowance specifications: an unreadable one is an input of its own kind. A cycle's place in its trace stands for its line number; `top_remaining_reason` and the strict-fallback-evidence gates would only add members of the same kind.
- `scan_source` beyond spans and latches, and `shipping_raw_declarations`, which only add more uses of the same matchers.
- GcGates.AggregateWorkload: the nested counter dictionaries are one table keyed by their place, and the increments of one cycle are added as one table.
