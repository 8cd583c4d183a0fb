# ns-3 tooling and example programs, verified

A Dafny model of the algorithms in the ns-3 repository that do real work outside the simulation
library: the test runner, the generator of introspected documentation, the loader of the Python
bindings, the style checker, the scheduler benchmark and the example programs with state machines
or arithmetic of their own. Each module models one program; its classes keep the fields that the
program updates in place, its methods are proved against functions of the old state, and the
theorems about those functions are lemmas.

`dafny verify dfyconfig.toml` checks everything.

## What is modelled

**The worker pool of `test.py`** (`WorkerPool.dfy`, `ResultOrder.dfy`). One main thread, N workers, a FIFO
input queue, an output queue and the flag set by the SIGINT hook. Every atomic action of a thread is a
step, so a run is any interleaving with an interrupt at any moment. The invariant places every job object
in exactly one of: undispatched, input queue, in the hands of a worker, output queue, collected. From it
follow exactly-once delivery, a clean shutdown, the absence of deadlock and a bound on the length of every
run. `is_break` marks both a sentinel and an interrupted job; the two uses never meet, because an
interrupted job goes only to the output queue. In a complete run a job's program is run exactly once if
the job comes back uninterrupted and was not to be skipped, and never otherwise. Results are collected in
the order in which the workers put them, so a single worker returns the jobs in the order of their
dispatch; and after an interrupt every job whose worker had not tested the flag by then comes back marked.
A finding: the `--jobs` option accepts a negative number, which starts no worker and dispatches no
sentinel; the main thread then waits for ever as soon as there is a job (`MinusOneHangs`;
`RunnerCompletesIff` gives the exact condition).

**The tally of `test.py`** (`TestTally.dfy`). The collector loop with its counters, name lists and
`failed_jobs`, the conservation of results, and the exit status in terms of the dispatched jobs.

**Library load order** (`LoadOrder.dfy`, `LoadOrderTheorems.dfy`; `bindings/python/ns__init__.py`).
The recursive layering with in-place worklists. Layer k is exactly the set of libraries whose
longest dependency chain has length k. The code has no test for a round in which nothing is ready:
it then recurses until the interpreter's recursion limit, which is the parameter `frames` here. The
recursion returns exactly when all dependencies are known libraries and no chain is too long for
`frames`; some limit suffices exactly when the dependencies are closed and acyclic.

**Configuration paths** (`TypeGraph.dfy`, `FollowedEdges.dfy`, `SimplePaths.dfy`, `UniqueRecords.dfy`,
`RootSearches.dfy`, `StaticInformation.dfy`; `utils/print-introspected-doxygen.cc`). The depth-first
search over pointer attributes, object vectors, subclasses and aggregations, with its member vectors
pushed and popped around recursive calls. `EdgesAre` says which edges it follows from a type: those of its
attributes, of its registered subclasses and of its aggregations, in this order and no others. It records
exactly the simple paths from the root, each once, in lexicographic order of the edges. A finding: the
records and the unknown names are meant to be made unique, but `Uniquefy` takes its container by value, so
the stored lists keep their repeats. The program's own list of aggregations names Node and
Icmpv4L4Protocol twice, and each search from Node records every path over them twice (`RecordedTwice`,
`SmallestRepeat`); a second search from one root repeats what the first recorded (`SameRootTwice`). If
names hold no slash and tell the edges of a type apart, as they do when types and attributes have names of
their own (`OwnNamesTell`), the list stored by the searches from all roots is free of repeats exactly if
no simple path from a root can be continued, to a type not yet on it, over two equal edges, and no two
roots have simple paths with the same names that end at the same type (`RootsDistinctIff`). The unknown
names hold a repeat exactly if two statements noted the same name (`NotedTwiceIff`), as the two about
Icmpv4L4Protocol do when its module is not built (`UnknownTwice`).

**The style checker** (`Text.dfy`, `StyleChecker.dfy`, `FixThenCheck.dfy`, `LineChecks.dfy`,
`LineFixes.dfy`, `LineRejections.dfy`, `FixSequence.dfy`, `FixPairs.dfy`, `TabPairs.dfy`,
`LicenseWords.dfy`, `HiddenLicense.dfy`, `FixAll.dfy`, `CheckedFiles.dfy`, `HiddenFile.dfy`;
`utils/check-style-clang-format.py`). The line loop with its formatting guards, six line checkers, and
the run of any selection of them over a file. `Offends` says of the text of a line alone what each check
is about; a check reports exactly the lines that offend and do not stand behind an off marker, where only
the white space check ignores the markers (`ReportedIff`), and a fix changes these lines only. A file
fixed by one check passes that check again, although a tab fix can itself turn a line into a guard
(`TabFixCreatesGuard` has the line). A finding about the whole run: with `--fix` it need not leave a
clean file, because the licence check runs before the tab check and a tab can hide a line of the
licence (`TabHidesLicense` has the file). Such a line can be seen in the file that is handed in, since
none of the fixes before the tab fix makes, removes or disables one (`HiddenThroughout`); so a run
leaves a clean file exactly if both checks are not selected or no line is hidden (`CleanIff`). Two runs
always do (`TwoRunsAreClean`).

**The scheduler benchmark** (`BenchScheduler.dfy`; `utils/bench-scheduler.cc`). The constant event
population, and Welford's algorithm over the reals.

**TCP examples** (`DctcpFairness.dfy`, `TcpLargeTransfer.dfy`, `TcpVariants.dfy`; `examples/tcp`).
Jain's index with 64-bit sums, exact if and only if its denominator stays below 2^64; the resumable
write loop; the paired window tracers with their context parsing.

**Other examples** (`MatrixTopology.dfy`, `SenderApps.dfy`). The adjacency matrix reader and printer
with the link loop, and two self-rescheduling applications. A finding: `TutorialApp` does not cancel
its pending send when it is started again. It keeps to one pending send exactly if nobody starts it
while one is pending (`OnePendingIff`); a start leaves it within the requested number of packets
exactly if it finds nothing pending (`WithinLimitIff`); and a stop silences it exactly if no event is
pending but the one it remembers (`QuietIff`). After two starts in a row it sends three packets where
two were requested (`OneTooMany`), and after two starts and a stop an event is left that still sends
(`StrayEvent`).

`CxxText.dfy` holds the number and line parsing of the C++ library that two of the programs use.

Assumed of code that is not modelled: `Simulator::Schedule` gives out a fresh event, `Cancel` removes
it if it is pending, `Run` executes the earliest pending event until there is none or `Stop` was
called, and delays are not negative; `Socket::Send` refuses with a negative number or takes at least
one byte; a test run returns any return code and any XML verdict, and workers do not raise.

## Model

| member | source | states |
|---|---|---|
| WorkerPool.InitInv | test.py:1585-1631 | the invariant holds before the first dispatch |
| WorkerPool.StepInv | test.py:1087-1171 | every step of every thread keeps the invariant: queue order, legal worker phases, counts, one place per job object |
| WorkerPool.RunInv | test.py:1087-1171 | every run, whatever the interleaving and the interrupts, keeps it |
| WorkerPool.ExactlyOnce | test.py:1940-1960 | in every reachable state each job is in exactly one place, so it is collected at most once and never lost |
| WorkerPool.ExitOnlyOnSentinel | test.py:1094-1095 | a worker that has exited did so on a sentinel, and no real job is left in the input queue then |
| WorkerPool.BreakMarksNeverCollide | test.py:1094-1104 | an interrupted job never reaches the test for a sentinel, and no sentinel comes out of a worker |
| WorkerPool.CleanShutdown | test.py:2124-2125 | after the last join every worker consumed exactly one sentinel, the queues are empty, and each job was collected exactly once: interrupted (only after a signal), skipped, or with the result of its run |
| WorkerPool.ResultsAreReal | test.py:1094-1113 | no sentinel is ever put on the output queue or collected |
| WorkerPool.Progress | test.py:1936-1960 | no deadlock: every state that is not final has an enabled action other than a signal |
| WorkerPool.StepRemaining | test.py:1087-1171 | every action lowers a measure that signals never raise |
| WorkerPool.RunsAreBounded | test.py:1936-1960 | no livelock: the actions of any run are bounded by the measure |
| WorkerPool.RunBound | test.py:1936-1960 | a run takes at most seven actions per job and eight per worker |
| WorkerPool.WorkerCount | test.py:1612-1626 | all processors without a limit, the smaller of the two with one, none if it is negative |
| WorkerPool.CompletesIff | test.py:1612-1626 | the last join can be reached if and only if there is a worker or there is no job |
| WorkerPool.RunnerCompletesIff | test.py:1595-1626 | on a machine with a processor, a run with jobs can complete if and only if the limit given by --jobs is not negative |
| WorkerPool.MinusOneHangs | test.py:1595-1626 | with --jobs=-1 and one job no state in which the main thread is done can be reached |
| WorkerPool.InterruptStopsLaunches | test.py:642-645 | after a signal only as many jobs are launched as there were workers that had already tested the flag |
| WorkerPool.EachLaunchesOnce | test.py:1101-1117 | after a signal each of those workers launches at most once, and no other worker at all |
| WorkerPool.StepOutcomes | test.py:1105-1171 | only running a job makes a result of it, and no step loses or copies one |
| WorkerPool.RunExactlyOnce | test.py:1087-1171 | in a complete run a job's program is run exactly once if it came back uninterrupted and was not to be skipped, with the result that came back, and never otherwise |
| WorkerPool.RunPool | test.py:1087-1171 | under any scheduler, with signals at any moment, the pool ends in a final state reached by legal steps |
| ResultOrder.ResultsInOrder | test.py:1959-1960 | in every run the results are collected in the order in which the workers put them on the queue |
| ResultOrder.OneWorkerKeepsOrder | test.py:1087-1171 | a single worker returns the jobs in the order in which they were dispatched |
| ResultOrder.PhasesFollow | test.py:1936-1960 | in every reachable state nothing is collected before all is dispatched, and no worker is joined before all is collected |
| ResultOrder.InterruptSendsBack | test.py:1101-1104 | at the end of a run, every job whose worker had not tested the flag when the signal came is marked as interrupted |
| TestTally.Collector.Collect | test.py:1959-2111 | what one result does to every counter and list |
| TestTally.CollectResults | test.py:1951-1995 | after the loop passed, failed, valgrind and crashed are the numbers of results with return code 0, 1, 2 and any other, of those neither interrupted nor skipped, and the name lists are theirs in order; the status is 0 exactly if each result is passed or skipped |
| TestTally.VerdictsByCode | test.py:1975-1995 | which results have which verdict, by their return code |
| TestTally.EveryResultCounted | test.py:1960-1995 | each result is counted under exactly one of six verdicts |
| TestTally.ExitZeroIff | test.py:2234-2237 | passed and skipped make up the total if and only if every result is one of the two |
| TestTally.OrderIndependent | test.py:1959-1960 | the counters do not depend on the order in which results come back |
| TestTally.FailedJobEntries | test.py:1975-2109 | how often a result is on failed_jobs: never if skipped or interrupted; for a bad return code once, and twice if it is a test suite that crashed or whose report is not a pass; for code 0 once exactly if the report of a test suite is not a pass |
| TestTally.RunSucceedsIff | test.py:2234-2237 | a complete run of the pool succeeds if and only if every dispatched job came back uninterrupted, and skipped or with return code 0 |
| LoadOrder.ModulesThatCanBeLoaded | bindings/python/ns__init__.py:444-455 | the pending libraries whose dependencies are all loaded, in order |
| LoadOrder.Worklists.DependencyOrder | bindings/python/ns__init__.py:457-472 | the recursion succeeds exactly if the plan does, empties the pending list and stores the plan's layers under consecutive numbers |
| LoadOrder.Worklists.LoadLayer | bindings/python/ns__init__.py:464-469 | one round moves exactly the ready libraries, in order, from the pending to the loaded ones |
| LoadOrderTheorems.LoadedIff | bindings/python/ns__init__.py:444-455 | a library is loaded within k rounds if and only if it starts no chain of k dependencies and none that leaves the known libraries |
| LoadOrderTheorems.LayerIsLongestChain | bindings/python/ns__init__.py:457-472 | layer k holds exactly the libraries whose longest dependency chain has length k |
| LoadOrderTheorems.LayerCount | bindings/python/ns__init__.py:457-472 | there is one layer more than the length of the longest chain |
| LoadOrderTheorems.PlanSucceeds | bindings/python/ns__init__.py:457-472 | from any round on, the recursion returns exactly if the rounds left suffice to load everything |
| LoadOrderTheorems.SucceedsIff | bindings/python/ns__init__.py:470-472 | the recursion returns if and only if all dependencies are known and no chain is as long as the recursion limit |
| LoadOrderTheorems.OrderedIffAcyclic | bindings/python/ns__init__.py:470-472 | some recursion limit suffices if and only if the dependencies are closed and acyclic, and then the number of libraries plus one does |
| LoadOrderTheorems.StuckRound | bindings/python/ns__init__.py:464-466 | a round with pending libraries and none ready means a cycle or an unknown dependency |
| LoadOrderTheorems.PairNeverOrdered | bindings/python/ns__init__.py:457-472 | two libraries that depend on each other: the recursion runs into its limit, whatever that is |
| LoadOrderTheorems.UnknownNeverOrdered | bindings/python/ns__init__.py:457-472 | so does a library that depends on an unknown name |
| LoadOrderTheorems.FlattenPlan | bindings/python/ns__init__.py:474-479 | the flattened layers are a permutation of the libraries, each after all its dependencies |
| LoadOrderTheorems.SortToDependencies | bindings/python/ns__init__.py:474-479 | the returned list exists exactly under that condition, and is such a permutation |
| FollowedEdges.EdgesAre | utils/print-introspected-doxygen.cc:447-521 | an edge is followed if and only if it is a pointer to something else than a bare Object, the items of a container, a registered subclass, or the other end of an aggregation; first all attributes, then all subclasses, then all aggregations, each group in its order |
| TypeGraph.JoinConcat | utils/print-introspected-doxygen.cc:351-361 | in a path as it is written down every element stands behind a slash of its own, in order |
| SimplePaths.EnumerateIff | utils/print-introspected-doxygen.cc:438-522 | the search below a given stack meets exactly the simple paths that avoid the stack |
| SimplePaths.EnumerateSorted | utils/print-introspected-doxygen.cc:438-522 | in strictly ascending lexicographic order of the edges, hence none twice |
| SimplePaths.SearchEnumerates | utils/print-introspected-doxygen.cc:438-522 | what is recorded are the ends and joined names of those paths |
| SimplePaths.SearchRecordsSimplePaths | utils/print-introspected-doxygen.cc:430-522 | from empty stacks: one record per simple path from the root, in preorder |
| SimplePaths.SortedListUnique | utils/print-introspected-doxygen.cc:438-522 | there is only one such list, so the records are determined completely |
| UniqueRecords.JoinInjective | utils/print-introspected-doxygen.cc:351-361 | a path that is written down determines its elements, if names are plain |
| UniqueRecords.OwnNamesTell | utils/print-introspected-doxygen.cc:447-521 | if types and the followed attributes of a type have different names, the name of an edge tells where it leads |
| UniqueRecords.RecordsDistinctIff | utils/print-introspected-doxygen.cc:430-436 | what one search adds is free of repeats if and only if no simple path forks over two equal edges to a type not yet on it |
| UniqueRecords.RecordedTwice | utils/print-introspected-doxygen.cc:550-558 | an aggregation recorded twice repeats a record, whatever else is in the graph |
| UniqueRecords.SmallestRepeat | utils/print-introspected-doxygen.cc:556-558 | two types, one aggregation recorded twice: two simple paths with one record |
| RootSearches.RootsDistinctIff | utils/print-introspected-doxygen.cc:577-581 | the whole list after the searches from any roots is free of repeats if and only if no simple path forks and no two roots have simple paths with equal names that end at the same type |
| RootSearches.SameRootTwice | utils/print-introspected-doxygen.cc:577-581 | one type that is root twice: nothing forks, and its record is stored twice |
| StaticInformationModel.StaticInformation.DoGather | utils/print-introspected-doxygen.cc:438-522 | terminates, restores both stacks, only appends to the records, and appends exactly those of the search |
| StaticInformationModel.StaticInformation.GatherAttributes | utils/print-introspected-doxygen.cc:447-487 | the attribute loop follows exactly the attribute edges in order; a pointer to a bare Object is not followed |
| StaticInformationModel.StaticInformation.GatherChildren | utils/print-introspected-doxygen.cc:488-500 | the subclass loop follows exactly the subclasses in the order of registration |
| StaticInformationModel.StaticInformation.GatherAggregates | utils/print-introspected-doxygen.cc:501-521 | the aggregation loop follows each aggregation from either end |
| StaticInformationModel.StaticInformation.Gather | utils/print-introspected-doxygen.cc:430-436 | the records added are those of the list of all simple paths; with plain names the whole stored list is free of repeats if and only if it was before, no path forks, and no record was stored already |
| StaticInformationModel.StaticInformation.GatherRoots | utils/print-introspected-doxygen.cc:577-581 | the searches from all roots in turn add the records of each; from an empty list, with plain names, the stored list is free of repeats if and only if nothing forks and no two roots meet |
| StaticInformationModel.StaticInformation.Get | utils/print-introspected-doxygen.cc:384-398 | the paths recorded for one type, in order |
| StaticInformationModel.PathsInOrder | utils/print-introspected-doxygen.cc:384-398 | what is returned are the paths of all records of the type, in the order of the records |
| StaticInformationModel.StaticInformation.RecordAggregationInfo | utils/print-introspected-doxygen.cc:319-339 | the first unknown name is noted and nothing recorded, or both names are known and their types are recorded |
| StaticInformationModel.StaticInformation.RecordAll | utils/print-introspected-doxygen.cc:550-570 | a list of such statements notes its unknown names and records, in order, one pair of types with the given names for every statement that notes nothing |
| StaticInformationModel.PathsOfSearch | utils/print-introspected-doxygen.cc:384-398 | after one search, a path is returned for a type if and only if some simple path from the root ends there with those names |
| StaticInformationModel.PathsOfRoots | utils/print-introspected-doxygen.cc:577-583 | after the searches from all roots, if and only if that holds for one of them |
| StaticInformationModel.NotedTwiceIff | utils/print-introspected-doxygen.cc:422-428 | the list of unknown names holds a repeat if and only if two statements noted the same name |
| StaticInformationModel.UnknownTwice | utils/print-introspected-doxygen.cc:556-558 | two statements about a type that is not registered note its name twice |
| StyleChecker.CheckManually | utils/check-style-clang-format.py:639-680 | the verdict and the file for every combination of fix and verbose, and which lines are reported, despite the early end of the loop |
| FixThenCheck.SkippedIff | utils/check-style-clang-format.py:646-660 | a line is left alone exactly if the last guard before it switches formatting off and it is no guard |
| CheckedFiles.GuardWords | utils/check-style-clang-format.py:47-57 | a guard is one of three words with on or off behind it, which decides its kind |
| FixThenCheck.VerdictIff | utils/check-style-clang-format.py:662-670 | there is a violation if and only if the guarded rewrite changes a line |
| FixThenCheck.RewriteLines | utils/check-style-clang-format.py:676-678 | the lines written back are read again as the same lines, except that those replaced by nothing vanish |
| FixThenCheck.RewriteIsClean | utils/check-style-clang-format.py:646-670 | no line enabled after the rewrite is rejected, although fixes may create guards |
| FixThenCheck.FixedIsCompliant | utils/check-style-clang-format.py:639-680 | fix then check is clean, and fixing twice is fixing once |
| FixThenCheck.CompliantIffUnchanged | utils/check-style-clang-format.py:639-680 | a file is compliant if and only if fixing leaves it as it is |
| LineChecks.TabsRepaired | utils/check-style-clang-format.py:959-994 | the tab check repairs every line it rejects and keeps guards |
| LineChecks.TabFixCreatesGuard | utils/check-style-clang-format.py:959-994 | a line that is no guard and becomes one by the tab fix |
| LineChecks.WhitespaceRepaired | utils/check-style-clang-format.py:926-956 | the white space check repairs every line it rejects and keeps guards |
| LineChecks.EmacsRepaired | utils/check-style-clang-format.py:886-923 | the emacs check drops no guard |
| LineChecks.IncludeQuotesRepaired | utils/check-style-clang-format.py:734-769 | the include check repairs every line it rejects |
| LineChecks.LicensesRepaired | utils/check-style-clang-format.py:822-883 | the licence check repairs every line it rejects |
| LineChecks.DoxygenTagsRepaired | utils/check-style-clang-format.py:772-819 | the Doxygen check repairs every line it rejects, for any notion of word characters without white space |
| LineChecks.EveryCheckFixes | utils/check-style-clang-format.py:311-395 | for each of the six checks: clean after fixing, idempotent, rejected if and only if fixing changes the file |
| LineRejections.IncludeIff | utils/check-style-clang-format.py:755-757 | a line is rejected if and only if it starts with an include of an ns-3 header in angle brackets |
| LineRejections.TagIff | utils/check-style-clang-format.py:800-806 | if and only if it is a comment marker, a backslash and a word of at least three word characters that white space or the end follows, with white space around, and the word is none of the three exceptions |
| LineRejections.LicenseIff | utils/check-style-clang-format.py:858-862 | if and only if it is a line of the licence between comment signs with white space around and between them |
| LineRejections.EmacsIff | utils/check-style-clang-format.py:906-912 | if and only if one of the two words occurs anywhere in it |
| LineRejections.WhitespaceIff | utils/check-style-clang-format.py:942-944 | unless it ends in a line feed with no white space before it |
| CheckedFiles.ReportedIff | utils/check-style-clang-format.py:341-408 | a check reports, in order, exactly the lines that are what it is about and do not stand behind an off marker, which only the white space check ignores |
| CheckedFiles.PassesIff | utils/check-style-clang-format.py:341-408 | a file passes a check if and only if it has no such line |
| CheckedFiles.FixedLineByLine | utils/check-style-clang-format.py:646-678 | fixing changes each of these lines and no other |
| CheckedFiles.WhitespaceEverywhere | utils/check-style-clang-format.py:380-386 | after the white space fix every line is the old one stripped, with one line feed, guarded or not |
| CheckedFiles.GuardedLinesStay | utils/check-style-clang-format.py:341-394 | the other five checks leave lines behind an off marker as they are |
| FixSequence.CleanStays | utils/check-style-clang-format.py:646-678 | a text that passes one check still does after the fixes of another, if these leave acceptable lines acceptable |
| TabPairs.FindTagExpanded | utils/check-style-clang-format.py:795-801 | expanding tabs neither makes nor removes a Doxygen tag |
| TabPairs.IncludeExpanded | utils/check-style-clang-format.py:755-758 | nor an include of an ns-3 header in angle brackets |
| FixAll.NoUpset | utils/check-style-clang-format.py:341-408 | which fixes leave alone what another check accepts: those of all later checks, except that the tab fix can upset the licence check |
| FixAll.AllButLicense | utils/check-style-clang-format.py:418-432 | after a run with --fix over any selection of the six checks, each of them but the licence check passes |
| HiddenLicense.HiddenStays | utils/check-style-clang-format.py:646-678 | if a fixer is neutral on every line, a file hides a line of the licence after it exactly if it did before, although lines vanish and guards decide |
| FixAll.HiddenThroughout | utils/check-style-clang-format.py:418-432 | no selection of the five other fixers makes, removes or disables a line that hides a licence line behind its tabs |
| FixAll.CleanIff | utils/check-style-clang-format.py:418-432 | after a run with --fix all selected checks pass if and only if the licence and the tab check are not both selected, or no line of the file handed in, enabled before and after the tab fix, reads as a line of the licence only once its tabs are expanded |
| FixAll.TwoRunsAreClean | utils/check-style-clang-format.py:418-432 | after a second run all selected checks pass |
| HiddenFile.TabHidesLicense | utils/check-style-clang-format.py:341-408 | a file of one line that a full run with --fix leaves with a line of the licence |
| LineFixes.TabsFix | utils/check-style-clang-format.py:980-983 | a tab becomes spaces up to the next column that is a multiple of four, where columns start again behind a line end, and all else is kept in order |
| LineFixes.WhitespaceFix | utils/check-style-clang-format.py:942-947 | exactly the trailing white space gives way to one line feed |
| LineFixes.IncludeQuotesFix | utils/check-style-clang-format.py:755-759 | angle brackets become quotes and nothing else changes |
| LineFixes.EmacsFix | utils/check-style-clang-format.py:906-914 | a line is dropped if and only if one of the two words occurs in it |
| LineFixes.LicensesFix | utils/check-style-clang-format.py:858-872 | the first line of the licence gives way to the short form in place, its other lines are dropped |
| LineFixes.DoxygenTagsFix | utils/check-style-clang-format.py:797-808 | the backslash of the tag becomes an @, and so does that of every other occurrence of the tag in the line; no character changes in another way |
| BenchScheduler.Bench.Cb | utils/bench-scheduler.cc:150-164 | the population of pending events is kept until the stop, and the count never exceeds the total |
| BenchScheduler.Bench.RunSimulator | utils/bench-scheduler.cc:140-143 | with a population, exactly total + 1 callbacks run and the count ends at the total |
| BenchScheduler.Bench.Run | utils/bench-scheduler.cc:121-148 | the reported number of events is the total, or 0 without a population |
| BenchScheduler.WelfordStep | utils/bench-scheduler.cc:338-344 | one update keeps the average the exact mean and the moment the sum of squared deviations from it |
| BenchScheduler.Log | utils/bench-scheduler.cc:333-368 | for every field the average is the mean and the squared deviation reported is the population variance, never negative |
| DctcpFairness.FairnessAtMostOne | examples/tcp/dctcp-example.cc:174-190 | the square of the sum is at most n times the sum of squares, equal if and only if all flows are |
| DctcpFairness.FairnessAtLeastOneNth | examples/tcp/dctcp-example.cc:174-190 | the sum of squares is at most the square of the sum |
| DctcpFairness.Fairness | examples/tcp/dctcp-example.cc:181-187 | the two parts of the index are the exact ones cut to 64 bits |
| DctcpFairness.ExactIff | examples/tcp/dctcp-example.cc:181-187 | nothing is cut off if and only if n times the sum of squares stays below 2^64 |
| DctcpFairness.IndexBounds | examples/tcp/dctcp-example.cc:187-187 | the quotient then exists if and only if something arrived (otherwise it is zero by zero), lies between 1/n and 1, and is 1 if and only if all flows are equal |
| DctcpFairness.LargeCountersWrap | examples/tcp/dctcp-example.cc:181-187 | ten equal flows of 2 GiB wrap both parts to zero |
| DctcpFairness.SmallCountersAreExact | examples/tcp/dctcp-example.cc:181-203 | counters up to 214748364 bytes are exact for up to 20 flows |
| DctcpFairness.Counters.InitializeCounters | examples/tcp/dctcp-example.cc:132-147 | all three groups start again from zero |
| DctcpFairness.Counters.TraceS1R1Sink | examples/tcp/dctcp-example.cc:114-118 | one packet adds its size to the total of its flow alone |
| DctcpFairness.Counters.TraceS2R2Sink | examples/tcp/dctcp-example.cc:120-124 | the same for the second group |
| DctcpFairness.Counters.TraceS3R1Sink | examples/tcp/dctcp-example.cc:126-130 | the same for the third group |
| DctcpFairness.Counters.PrintFairness | examples/tcp/dctcp-example.cc:174-217 | the three indices are those of the bytes received since the initialisation, even if counters have wrapped |
| TcpLargeTransfer.PayloadContinues | examples/tcp/tcp-large-transfer.cc:95-99 | the slice at the current offset continues the alphabet, because 26 divides 1040 |
| TcpLargeTransfer.Sender.WriteUntilBufferFull | examples/tcp/tcp-large-transfer.cc:210-232 | whatever the socket takes or refuses, it has been handed the letters a to z over and over; it is closed if and only if it has 2000000 of them; otherwise it was full or refused |
| TcpLargeTransfer.Sender.Run | examples/tcp/tcp-large-transfer.cc:198-232 | this holds after any callbacks, and each one with free space that is not refused makes progress, so as many of them as there are bytes close the socket |
| TcpVariants.ContextField | examples/tcp/tcp-variants-comparison.cc:68-74 | the identifier is read from the second path element, cut to 32 bits, or the conversion fails |
| TcpVariants.ContextRoundTrip | examples/tcp/tcp-variants-comparison.cc:228-250 | the context under which a tracer is connected yields the node it was connected for |
| TcpVariants.ContextWithoutField | examples/tcp/tcp-variants-comparison.cc:68-74 | without a second slash the number is read from the start of the context |
| TcpVariants.NumberIff | examples/tcp/tcp-variants-comparison.cc:73-73 | the conversion takes white space, a sign and digits; a negative number counts down from 2^64; it fails without digits or beyond 64 bits |
| TcpVariants.StreamIs | examples/tcp/tcp-variants-comparison.cc:83-129 | a stream in full: nothing before the first change of its window, then the old value at time zero and one line for this and every later change |
| TcpVariants.StreamsInStep | examples/tcp/tcp-variants-comparison.cc:83-129 | from the moment both windows have changed, all later changes add exactly one line each to both streams, at their own time and with the newest value of that moment |
| TcpVariants.NewestIsLast | examples/tcp/tcp-variants-comparison.cc:94-94 | the newest value is that of the last change of the window |
| TcpVariants.StreamShape | examples/tcp/tcp-variants-comparison.cc:83-129 | nothing is written before the first change; the last line always has the newest value |
| TcpVariants.Tracers.CwndTracer | examples/tcp/tcp-variants-comparison.cc:83-102 | once both windows of the node have changed, both its streams get exactly one line, at this time and with the newest value; the streams of other nodes stay |
| TcpVariants.Tracers.SsThreshTracer | examples/tcp/tcp-variants-comparison.cc:111-129 | the same for the other window |
| MatrixTopology.ReadNxNMatrix | examples/matrix-topology/matrix-topology.cc:287-350 | the rows if they form a square matrix, or a fatal error with the first row of a different length or the two dimensions |
| MatrixTopology.JudgesSquare | examples/matrix-topology/matrix-topology.cc:323-346 | a file is accepted if and only if its rows form a square matrix |
| MatrixTopology.OneVerdict | examples/matrix-topology/matrix-topology.cc:323-346 | the verdict, with its row or dimensions, is determined by the rows |
| MatrixTopology.ReadRow | examples/matrix-topology/matrix-topology.cc:312-321 | the elements of a line up to the first that is not 0 or 1 |
| MatrixTopology.RowsByLine | examples/matrix-topology/matrix-topology.cc:300-321 | there is one row for every line, the last one also without a line feed; a blank line or the end of the file ends them |
| MatrixTopology.ScanIff | examples/matrix-topology/matrix-topology.cc:312-321 | an element is 0 or 1 with white space and a sign before it, but not -1; any other number is a failure, and so is no number |
| MatrixTopology.OtherNumberEnds | examples/matrix-topology/matrix-topology.cc:312-321 | a number from 2 on ends the row |
| MatrixTopology.BlankLineEnds | examples/matrix-topology/matrix-topology.cc:303-308 | a blank line ends the matrix, whatever follows |
| MatrixTopology.PrintMatrix | examples/matrix-topology/matrix-topology.cc:403-416 | the row lines, one character and a space for each element |
| MatrixTopology.PrintedRowAt | examples/matrix-topology/matrix-topology.cc:407-412 | a row is printed as one digit and one space for every element |
| MatrixTopology.PrintedRowsReturn | examples/matrix-topology/matrix-topology.cc:287-416 | reading printed rows returns them, for any shape without empty rows |
| MatrixTopology.RoundTrip | examples/matrix-topology/matrix-topology.cc:287-416 | printing and reading a matrix returns it if and only if it is square, the empty one included |
| MatrixTopology.CreateLinks | examples/matrix-topology/matrix-topology.cc:149-169 | one link for every true entry, in row order, and the 32-bit count of them |
| MatrixTopology.AllLinks | examples/matrix-topology/matrix-topology.cc:149-169 | a pair is linked if and only if its entry is true; in an accepted matrix both ends are existing nodes |
| SenderApps.WifiSender.StartApplication | examples/stats/wifi-example-apps.cc:92-109 | a new round: nothing sent yet, exactly one event pending and that a fresh one, whatever was before; the promises hold |
| SenderApps.WifiSender.StopApplication | examples/stats/wifi-example-apps.cc:111-116 | no event is left that could send |
| SenderApps.WifiSender.SendPacket | examples/stats/wifi-example-apps.cc:118-142 | one packet is sent, the next event is pending unless this was the last of the requested number, and the promises hold |
| SenderApps.TutorialApp.StartApplication | examples/tutorial/tutorial-app.cc:53-61 | sends one packet at once; the promises survive unless an event was pending, and the number of pending events says so |
| SenderApps.TutorialApp.StopApplication | examples/tutorial/tutorial-app.cc:63-77 | nothing is pending afterwards if and only if nothing but the remembered event was |
| SenderApps.TutorialApp.RunEvent | examples/tutorial/tutorial-app.cc:79-99 | one packet is sent, and the promises of an application that was never restarted hold |
| SenderApps.EveryRun | examples/stats/wifi-example-apps.cc:92-142 | over every run of either application: at most one pending send, none after a stop, exactly count packets since the start, never more than allowed, all of them once nothing is pending |
| SenderApps.SendsOnlyWhileActive | examples/stats/wifi-example-apps.cc:111-142 | no packet is sent between a stop and the next start |
| SenderApps.Undisturbed | examples/stats/wifi-example-apps.cc:118-142 | left alone after a start it sends exactly the requested number of packets and stops |
| SenderApps.OnePendingIff | examples/tutorial/tutorial-app.cc:53-99 | the tutorial keeps to one pending send if and only if it is never started while one is pending |
| SenderApps.QuietIff | examples/tutorial/tutorial-app.cc:63-99 | a stop silences the application until the next start if and only if no event is pending but the one it remembers |
| SenderApps.WithinLimitIff | examples/tutorial/tutorial-app.cc:53-99 | a start, whatever then fires, keeps the tutorial within its number of packets if and only if it finds nothing pending; with fewer than two packets it always does |
| SenderApps.OneTooMany | examples/tutorial/tutorial-app.cc:53-99 | started twice, it sends three packets where two were requested |
| SenderApps.StrayEvent | examples/tutorial/tutorial-app.cc:53-77 | started twice and stopped, it still holds an event that sends |

## Left out

- WorkerPool.Next: job objects are values that move between queues, identified by a number; what the model does not capture is aliasing between threads. A job run gives any return code and any XML verdict.
- TestTally.Collector.Collect: report files, the status line and the display of failed output; a test suite with return code 0 to 2 that leaves no report file behind ends test.py with an exception.
- LoadOrder.Worklists.DependencyOrder: the search for libraries and the extraction of their dependencies; the dependency map is the input, the recursion limit a parameter, and the shared default dictionary of the recursion starts empty.
- StaticInformationModel.StaticInformation: the Doxygen text itself; attribute checkers are given as data, and the subclass relation is any set of pairs, of which the parent chains of IsChildOf are a special case.
- StyleChecker.CheckManually: reports the numbers of the rejected lines, not the text of the messages; file encodings and the translation of line ends on reading are not modelled.
- LineChecks.LineCheckerOf: check_include_prefixes_line, which depends on the files that exist, and the external clang-format and encoding checks.
- FixAll.FixSelected: one file to which all selected checks apply; the file extensions that decide which checks apply to a file are not modelled.
- BenchScheduler.Log: rounding of doubles, and the square root of the variance; the results are exact over the reals.
- DctcpFairness.Counters.PrintFairness: the average throughputs that are printed beside the indices, and the rounding of the final division; the vectors have their full sizes of 10, 20 and 10.
- TcpLargeTransfer.Sender.WriteUntilBufferFull: the connection set-up, and the variant of the writer in examples/socket/socket-bound-tcp-static-routing.cc, which closes after every call.
- TcpVariants.Tracers: the tracers of other values, which write one line per change; times are numbers, not their printed form. A node is set up before its callbacks are connected.
- MatrixTopology.ReadNxNMatrix: the coordinate file, and the devices and addresses behind a link.
- SenderApps.EveryRun: packets, sockets and intervals; any pending event may fire next. The receiver of the statistics example.
- The simulation library, and all example scripts that only configure a topology.
