# Verified models of the ns-3 tools and of a satellite handover scenario

This project models the algorithms and protocols inside the tools of an ns-3 tree and in one
of its scenarios, and proves what they keep, over all inputs and all runs. There is one module
for each component.

- `TypePaths`: the enumeration of configuration paths on the cyclic type graph, with its two
  explicit stacks. The recursion is proved against a recursive specification, and that one
  against an independent definition of simple walks: one entry for each walk that repeats no
  type, parallel edges counted separately, in lexicographic order.
- `GraphEdges`: what the edges of that graph are: the followed attributes, then the children,
  then the aggregations, one by one and in order.
- `RepeatedEntries`: when that output repeats entries: path strings can be read in one way only,
  so it does exactly where a walk reaches two equal edges.
- `WorkerPool`, `Collector`: the threads of the test runner as a step relation over all
  interleavings, with an interrupt at any moment and workers that may die of an exception:
  conservation of jobs, when the main thread comes to its end, a bound on the length of every
  run, and the accounting of the collected results up to the exit code.
- `DependencyOrder`: the layered load order of the Python bindings: when it exists, that it is
  a permutation with dependencies first, and that layers are exact depths.
- `Handover`: the four handover policies as a step of a terminal, over whole runs: what is
  selected, how often, what the counters and the cached values of the serving satellite are.
- `StyleFixer`, `FixerComposition`, `FixerLines`: the whitespace, tabs and license passes over the text of a
  file, and that their fixes, in order, leave nothing to do for any of the three.
- `BenchStats`: the one-pass mean and variance of the benchmark, equal to the two-pass ones.
- `EventPopulation`: the event loop of the benchmark and its conservation law.
- `ChunkedWriter`: the sender that writes a periodic buffer as far as a socket accepts it.
- `TimelineIndex`: the binary searches over a timeline, against linear scans.

Code that updates state step by step is a method with loops, in a class where the original has
one, and is proved against a function of the old state or against the property itself. The
worker threads are the exception: they are one transition relation, so that every
interleaving is covered.

## Where the code differs from its documentation or from what one would expect

- `Uniquefy` says that it modifies its container in place but takes it by value. So `Gather`
  leaves duplicates: with readable names, the output of all roots has some exactly if a walk from
  a root reaches two equal edges or walks from two roots meet
  (`OutputIsDistinctExactlyIfSeparate`). Recording an aggregation twice, as is done for
  `Icmpv4L4Protocol`, is enough as soon as a walk visits either of its types
  (`RepeatedAggregationRepeatsEntries`, and `NodeAndProtocol` for the smallest case). And `GetNoTypeIds` returns a name twice exactly if two
  calls miss it first (`NamesRepeatExactlyIfMissedTwice`).
- The worker pool does not always come to its end. Where it can go no further it is done exactly
  if no job was lost, because running it raised an exception in its worker, and there was a
  worker for the jobs (`StuckIsDoneExactlyIfNothingIsLost`); the other case exists exactly if
  there are jobs and either no worker or a job that is really to be run (`PoolCanGetStuck`).
  While one worker survives all other jobs are collected all the same
  (`SurvivorsFinishTheRest`).
- The collection loop opens the result file of a test suite outside its `try` block, so it ends
  with an exception exactly if a suite returned 0, 1 or 2 and left no file that is there and is
  valid UTF-8 (`Collect`).
- `dependency_order` has no case for a step that loads nothing: it recurses without end, which
  is `None` in the model. `OrderedExactlyIfClosedAndAcyclic` says when.
- The slice of `get_ranges_bounds` is not always the set of ranges that meet the interval.
  `EndsAreUsable` is the exact condition; with both ends in gaps the slice is empty
  (`RangeBetweenGapsIsMissed`), and where ranges touch the search may find the wrong one
  (`TouchingRangeIsMissed`).
- `WriteUntilBufferFull` closes the socket also when its buffer is full. A connected TCP socket,
  whose buffer takes what fits, is closed with bytes still to be sent exactly if it has less
  space than they need; `SmallBufferEndsTheFlow` is a case.
- Expanding a tab can turn a line into an "off" guard, so the license pass may be disabled
  where the tabs pass was not (`ScriptGuardFromATab`).

A remark on a changed parameter: cells are 16-bit numbers computed from 32-bit satellite numbers,
which is harmless for the 66 satellites of the scenario. In a constellation with satellites
numbered 65535 and above the time-to-exit policy would miss its best candidate, or store the
signal quality of one satellite under the number of another, exactly as
`BestIsReachedExactlyInCells` and `ServingCacheInAnyConstellation` say and
`LargeNumbersBreakTheCache` shows.

## Model

| member | source | states |
|---|---|---|
| TypePaths.StaticInformation.RecordAggregationInfo | utils/print-introspected-doxygen.cc:318-338 | only the first name that is not found is remembered; the pair is appended exactly when both are found |
| TypePaths.StaticInformation.RecordAll | utils/print-introspected-doxygen.cc:549-569 | a sequence of calls appends exactly the first missing names and the pairs that were found, in order |
| TypePaths.StaticInformation.GetNoTypeIds | utils/print-introspected-doxygen.cc:421-427 | returns every name that was recorded, repetitions included |
| TypePaths.NamesRepeatExactlyIfMissedTwice | utils/print-introspected-doxygen.cc:318-338 | the returned names repeat if and only if two calls miss the same name first |
| TypePaths.StaticInformation.GetCurrentPath | utils/print-introspected-doxygen.cc:350-360 | the loop yields the path items, each behind a slash |
| TypePaths.StaticInformation.RecordOutput | utils/print-introspected-doxygen.cc:362-367 | appends one entry for the type with the current path |
| TypePaths.StaticInformation.HasAlreadyBeenProcessed | utils/print-introspected-doxygen.cc:369-381 | true exactly if the type is on the current path |
| TypePaths.StaticInformation.Get | utils/print-introspected-doxygen.cc:383-396 | the recorded paths of a type, in recording order |
| TypePaths.StaticInformation.DoGather | utils/print-introspected-doxygen.cc:437-521 | extends the output by exactly what the specification records, restores both stacks, and terminates because the types not on the path shrink |
| TypePaths.StaticInformation.Descend | utils/print-introspected-doxygen.cc:466-470 | push, recurse and pop: adds exactly what is recorded from the other end of the edge and restores both stacks |
| TypePaths.StaticInformation.Follow | utils/print-introspected-doxygen.cc:466-470 | consumes one edge of what remains to be recorded and leaves both stacks as they were |
| TypePaths.StaticInformation.GatherAttributes | utils/print-introspected-doxygen.cc:446-486 | the loop over the attributes records exactly the attribute edges, in order |
| TypePaths.StaticInformation.FollowAttribute | utils/print-introspected-doxygen.cc:448-485 | a pointer to the root class is not followed, other pointers and vectors are, any other attribute is ignored |
| TypePaths.StaticInformation.GatherChildren | utils/print-introspected-doxygen.cc:487-499 | the loop over the registered types records exactly the edges to child types |
| TypePaths.StaticInformation.FollowChild | utils/print-introspected-doxygen.cc:489-498 | a registered type is entered exactly if it is a child of the type, which is one of the edges listed by EdgesInOrder |
| TypePaths.StaticInformation.GatherAggregates | utils/print-introspected-doxygen.cc:500-520 | after the loop over the aggregations, in both directions, nothing remains to be recorded |
| TypePaths.StaticInformation.FollowAggregate | utils/print-introspected-doxygen.cc:502-519 | an aggregation leads to its other end, from either end |
| TypePaths.StaticInformation.Gather | utils/print-introspected-doxygen.cc:429-435 | keeps everything that DoGather recorded, duplicates included |
| TypePaths.StaticInformation.GatherAll | utils/print-introspected-doxygen.cc:576-580 | over all roots, the output is what is recorded from each of them, one after the other, and the stacks end empty |
| TypePaths.UnprocessedShrinks | utils/print-introspected-doxygen.cc:467 | the termination measure: pushing a type strictly shrinks the set of types not on the path |
| GraphEdges.EdgesExactly | utils/print-introspected-doxygen.cc:446-520 | an edge leaves a type if and only if it is for a pointer attribute not to the root class, for a vector attribute, for a registered child, or for the other end of a recorded pair, with the label of its kind |
| GraphEdges.EdgesInOrder | utils/print-introspected-doxygen.cc:446-520 | the edges one by one: first the followed attributes, then the registered children, then the pairs with the type at an end, each group in order and each edge once for what it comes from |
| TypePaths.WalksAreTheSimpleWalks | utils/print-introspected-doxygen.cc:441-444 | soundness and completeness: exactly the walks that repeat no type and avoid the path are enumerated |
| TypePaths.WalksAscend | utils/print-introspected-doxygen.cc:446-520 | the walks come in strictly ascending order of their edges, so none comes twice |
| TypePaths.RecordedAreTheWalks | utils/print-introspected-doxygen.cc:437-521 | each entry is the last type and the labels of the walk at the same position |
| TypePaths.GatherRecordsEverySimpleWalkOnce | utils/print-introspected-doxygen.cc:430-435 | from empty stacks, the entries are in one-to-one correspondence with all simple walks from the root |
| RepeatedEntries.ForkRepeatsEntries | utils/print-introspected-doxygen.cc:429-435 | wherever a walk reaches two equal edges to a type where it has not been, the output repeats entries |
| RepeatedEntries.PathStringIsInjective | utils/print-introspected-doxygen.cc:350-360 | with readable labels a path string comes from one sequence of labels only |
| RepeatedEntries.SameStepSameEdge | utils/print-introspected-doxygen.cc:466-517 | with readable names, edges of one type that have the same label are equal |
| RepeatedEntries.EntriesRepeatExactlyAtForks | utils/print-introspected-doxygen.cc:429-435 | with readable names, the entries of a gathering repeat if and only if some walk reaches two equal edges to a type where it has not been |
| RepeatedEntries.CommonEntryExactlyIfRootsMeet | utils/print-introspected-doxygen.cc:576-580 | two roots record an entry in common if and only if walks from them end in the same type by the same labels |
| RepeatedEntries.OutputIsDistinctExactlyIfSeparate | utils/print-introspected-doxygen.cc:576-580 | with readable names, the output of all roots is free of repetitions if and only if no walk from any of them reaches two equal edges and no two of them meet |
| RepeatedEntries.RepeatedAggregationRepeatsEntries | utils/print-introspected-doxygen.cc:555-557 | an aggregation of two types recorded twice makes the output repeat entries as soon as any walk from the root visits either of them |
| RepeatedEntries.NodeAndProtocol | utils/print-introspected-doxygen.cc:555-557 | two types aggregated twice: the smallest graph whose output repeats an entry |
| TypePaths.PathsOfEntries | utils/print-introspected-doxygen.cc:383-396 | selecting the entries of a type selects the walks that end there |
| TypePaths.EndingAtMembers | utils/print-introspected-doxygen.cc:388-394 | of the walks exactly those that end in the type are kept, in ascending order |
| TypePaths.PathsOfConcat | utils/print-introspected-doxygen.cc:388-394 | the paths after several gatherings are those of the single gatherings, in order |
| TypePaths.GetReturnsTheWalksEndingThere | utils/print-introspected-doxygen.cc:383-396 | one more gathering adds to the answer of Get the paths of exactly the simple walks from the new root that end in the type, each once |
| WorkerPool.JobsAreConserved | test.py:1637-1677 | in every reachable state a dispatched job is in exactly one of five places (queued, held, reported, collected, lost), once, and no other job is anywhere |
| WorkerPool.SentinelsMatchLiveWorkers | test.py:1929-1932 | real jobs are ahead of the breaks; breaks sent are queued or have retired a worker; no break has retired a worker while a real job is queued |
| WorkerPool.SomeThreadCanMove | test.py:1079-1163 | no deadlock while no job is lost: with a worker some thread can move until all is collected and joined |
| WorkerPool.StuckIsDoneExactlyIfNothingIsLost | test.py:1126-1163 | where no thread can move, the main thread is done if and only if no worker lost a job to an exception and there was a worker for the jobs |
| WorkerPool.PoolCanGetStuck | test.py:1952-1953 | some run ends before the main thread is done if and only if there are jobs and either no worker or a job that is not skipped |
| WorkerPool.RunUntilStuck | test.py:1079-1163 | every run can be continued until no thread can move |
| WorkerPool.EveryStepDecreases | test.py:1079-1163 | a global measure decreases with every step of every thread, the death of a worker and the interrupt |
| WorkerPool.RunLength | test.py:1079-1163 | no run is longer than the measure |
| WorkerPool.EveryRunFinishes | test.py:1952-1953 | every run has at most 5 J + 3 P + 1 steps; where it can go no further, either nothing is lost and all is done, the queues empty, the workers gone and each job collected once, or some result is never collected |
| WorkerPool.SurvivorsFinishTheRest | test.py:1079-1163 | if a run can go no further and one worker survives, every job is either collected or lost, once, and the lost ones number the dead workers |
| WorkerPool.EveryDeathLosesOneJob | test.py:1126-1163 | the lost jobs number the dead workers at any time |
| WorkerPool.DoneIsClean | test.py:2111-2112 | after the joins nothing is lost, in a queue or in the hands of a worker |
| WorkerPool.OutcomesAreGenuine | test.py:1093-1106 | collected outcomes are true: without an interrupt exactly the jobs to skip are skipped and all others have been run; only after an interrupt may a job come back unrun |
| WorkerPool.NothingStartsAfterInterrupt | test.py:1089-1096 | after an interrupt every worker that runs a job was running it then, and every job reported as run was run or running then |
| WorkerPool.WaitingJobsAreInterrupted | test.py:1089-1096 | a job that is undispatched, queued or not yet looked at when an interrupt has come, to be skipped or not, can only be reported as interrupted |
| Collector.InterruptFailsTheRun | test.py:2221-2224 | after an interrupt that finds a job waiting a completed run is not clean, so its exit code is not 0 |
| WorkerPool.StepInv | test.py:1079-1163 | every step of every thread keeps the invariant: phases, order of the queue, outcomes, conservation |
| WorkerPool.ReachableInv | test.py:1079-1163 | the invariant holds after every interleaving |
| Collector.Collect | test.py:1952-2104 | aborts exactly if a result file is needed and is missing or not valid UTF-8; otherwise gives a summary of the results: counters that add up to the dispatched jobs, the list of failed jobs, and an exit code that is 0 exactly for clean results |
| Collector.CountersByReturnCode | test.py:1969-1987 | passed, failed, valgrind and crashed are the numbers of return codes 0, 1, 2 and all others |
| Collector.FailedJobsByResult | test.py:1968-2104 | how often a job is in the final list of failed jobs: an example once if it did not return 0; a suite for that, and again if its code is none of 0, 1, 2 or its file says neither PASS nor SKIP; a job that was not run never |
| Collector.Partition | test.py:1954-1988 | every result is in exactly one of six classes |
| Collector.NeitherPassedNorSkipped | test.py:2221-2224 | passed and skipped make up the total exactly if nothing was interrupted, failed or crashed |
| Collector.CleanMeansEveryJobSucceeded | test.py:2221-2224 | over a whole run of the pool: the results are clean exactly if every dispatched job has the result it should have |
| Collector.OnlyReport | test.py:1952-1953 | a job that is reported once has exactly one result |
| DependencyOrder.Loader.ModulesThatCanBeLoaded | bindings/python/ns__init__.py:432-443 | the pending modules whose dependencies are all loaded, in order |
| DependencyOrder.Loader.Remove | bindings/python/ns__init__.py:456 | takes out that one module and keeps the order of the others |
| DependencyOrder.Loader.LoadStep | bindings/python/ns__init__.py:452-457 | the loadable modules move from pending to loaded and make up the step |
| DependencyOrder.Loader.DependencyOrder | bindings/python/ns__init__.py:445-460 | the recursion over the mutated lists yields the steps of the specification, or reports that it would not end |
| DependencyOrder.SortToDependencies | bindings/python/ns__init__.py:462-467 | succeeds exactly for closed acyclic maps, with a permutation of the modules in which dependencies come strictly earlier |
| DependencyOrder.StuckMeansMissingOrCycle | bindings/python/ns__init__.py:432-443 | a step that loads nothing shows a missing dependency or a cycle among the pending modules |
| DependencyOrder.NeverStuck | bindings/python/ns__init__.py:445-460 | on a closed acyclic map the pending modules run out |
| DependencyOrder.OrderedExactlyIfClosedAndAcyclic | bindings/python/ns__init__.py:445-460 | an order exists if and only if the map is closed and acyclic |
| DependencyOrder.StepsAreDepths | bindings/python/ns__init__.py:452-460 | step k holds only modules whose longest dependency chain has length k |
| DependencyOrder.ModuleLandsAtItsDepth | bindings/python/ns__init__.py:450-457 | a module is in step k if and only if its longest dependency chain has length k |
| DependencyOrder.StepsHoldThePending | bindings/python/ns__init__.py:452-457 | the steps together hold exactly the pending modules |
| DependencyOrder.FlatOrder | bindings/python/ns__init__.py:462-467 | in the flattened order dependencies come before what needs them |
| DependencyOrder.SortedLibraries | bindings/python/ns__init__.py:462-467 | the flattened order is a permutation of the modules with dependencies strictly earlier |
| Handover.NtnEvaluator.EvaluateUe | scratch/ntn-tn-integrated-analysis.cc:593-696 | the terminal moves as specified, no other one changes, the global counters move with its outcome, and the ledger is kept |
| Handover.NtnEvaluator.RefreshServing | scratch/ntn-tn-integrated-analysis.cc:599-609 | first assignment, then the current values of the serving satellite if it is visible |
| Handover.NtnEvaluator.ScanCandidates | scratch/ntn-tn-integrated-analysis.cc:613-635 | the scan finds the specified candidate, cell number truncated to 16 bits |
| Handover.NtnEvaluator.Decide | scratch/ntn-tn-integrated-analysis.cc:637-663 | trigger, hysteresis and the four policies select as specified |
| Handover.NtnEvaluator.Elevation | scratch/ntn-tn-integrated-analysis.cc:665-666 | the elevation of the selected satellite, 0 if it is not visible |
| Handover.NtnEvaluator.ExecuteHandover | scratch/ntn-tn-integrated-analysis.cc:669-696 | counters and terminal after an attempt; a failed one leaves satellite and clock alone |
| Handover.NtnEvaluator.Evaluate | scratch/ntn-tn-integrated-analysis.cc:499-707 | one evaluation moves every terminal by one step and keeps the ledger |
| Handover.Simulate | scratch/ntn-tn-integrated-analysis.cc:709-714 | over the evaluations at seconds 0, 1, 2, ... every terminal is in the state of its own run, and the ledger holds at the end |
| Handover.BestOfIsBest | scratch/ntn-tn-integrated-analysis.cc:618-628 | the scan keeps an admitted candidate of longest time-to-exit, of best signal where that is equal, or shows that there is none |
| Handover.TriggeredExactlyIfWanted | scratch/ntn-tn-integrated-analysis.cc:637-642 | looking at the first row is enough: there is a trigger if and only if the serving satellite is below -5 dB or some other one beats it by more than 3 dB |
| Handover.ServingAtTheBeginning | scratch/ntn-tn-integrated-analysis.cc:599-609 | a terminal without a satellite takes the strongest one; otherwise it keeps its own, with current values if that is visible and the last known ones if not |
| Handover.TteAwareSelectsTheBest | scratch/ntn-tn-integrated-analysis.cc:642-653 | an attempt is made to a best admitted candidate exactly when triggered and half its time-to-exit, at most 15 s, has passed; without a candidate to the strongest satellite, exactly when the serving one is below -30 dB |
| Handover.A3SelectsTheStrongest | scratch/ntn-tn-integrated-analysis.cc:657-659 | an attempt is made exactly if some neighbour beats the serving satellite by more than 3 dB, to the strongest such one |
| Handover.LocationSelectsTheStrongest | scratch/ntn-tn-integrated-analysis.cc:654-656 | an attempt is made exactly if triggered and some neighbour is at or above -5 dB, to the strongest such one |
| Handover.TimeSelectsTheStrongest | scratch/ntn-tn-integrated-analysis.cc:660-663 | an attempt is made exactly if triggered and more than 45 s after the last success, to the strongest satellite, and succeeds exactly by its signal and its elevation or luck |
| Handover.WhatAnAttemptComesTo | scratch/ntn-tn-integrated-analysis.cc:671-695 | the success of an attempt by signal, elevation and luck, whether it is a ping-pong, and what serves, what is remembered and when, after a success and after a failure |
| Handover.ServingCacheIsCurrent | scratch/ntn-tn-integrated-analysis.cc:606-609 | after every evaluation, of every policy and from every state, the stored values of a visible serving satellite are its current ones |
| Handover.AdmittedHandoversAreSpaced | scratch/ntn-tn-integrated-analysis.cc:642 | an attempt on an admitted candidate comes at least 10 s after the last success and is no ping-pong |
| Handover.TimeHandoversAreSpaced | scratch/ntn-tn-integrated-analysis.cc:662 | an attempt of the time-based policy comes at least 46 s after the last success and is no ping-pong |
| Handover.FailureOnlyCounts | scratch/ntn-tn-integrated-analysis.cc:679-695 | a failed attempt moves nothing but the counters |
| Handover.StepCounters | scratch/ntn-tn-integrated-analysis.cc:672-680 | the counters of a terminal move by exactly its outcome |
| Handover.TimeBasedRate | scratch/ntn-tn-integrated-analysis.cc:661-662 | over every run of N evaluations at most 1 + (N-1)/46 successes and no ping-pong |
| Handover.TteAwareRate | scratch/ntn-tn-integrated-analysis.cc:642-653 | over every run at most 1 + (N-1)/10 successes on admitted candidates and no more ping-pongs than fallbacks |
| Handover.PingPongsExactly | scratch/ntn-tn-integrated-analysis.cc:673-694 | over every run, an attempt after a last success is counted as a ping-pong if and only if it goes back within less than 10 s to the satellite that success came from |
| Handover.NoPingPongBeforeASuccess | scratch/ntn-tn-integrated-analysis.cc:674 | before the first success of a run no attempt is counted as a ping-pong |
| StyleFixer.CheckManuallyFile | utils/check-style-clang-format.py:532-573 | reports exactly whether the file is compliant, early exit included, and writes the specified text in fix mode only |
| StyleFixer.Ns3IsCompatible | utils/check-style-clang-format.py:47-57 | the guards, license lines and replacement of the script satisfy the conditions under which the fixes compose |
| FixerComposition.FixTouchesExactlyTheUnguarded | utils/check-style-clang-format.py:541-552 | tabs and license fixes leave exactly the lines behind an "off" guard alone; every other line is fixed on its own |
| FixerLines.CompliantExactlyIfUnchanged | utils/check-style-clang-format.py:559-561 | a check accepts exactly the lines that its fix would leave alone |
| FixerLines.FileCompliantExactlyIfUnchanged | utils/check-style-clang-format.py:559-571 | a file is compliant if and only if the fix would change none of its lines |
| FixerLines.UncommentedExactly | utils/check-style-clang-format.py:732-734 | the text of a line is what is left between all spaces, then all comment marks, then all spaces at either end |
| FixerLines.LineEndsAreRead | utils/check-style-clang-format.py:536-537 | each of the three line ends is read as a newline |
| FixerLines.JoinSplit | utils/check-style-clang-format.py:536-537 | splitting into lines loses nothing |
| FixerComposition.WhitespaceFixOnlyTrims | utils/check-style-clang-format.py:643-647 | only the spaces at the end go, all of them, and one newline is put there |
| FixerComposition.ExpandTabsKeepsColumns | utils/check-style-clang-format.py:682-684 | every character other than a tab stays at its display column and all else is a space |
| FixerLines.TabsFixKeepsColumns | utils/check-style-clang-format.py:682-684 | the tabs fix leaves no tab, keeps the end of the line and every other character at its display column |
| FixerComposition.LicenseFixKeepsTheFrame | utils/check-style-clang-format.py:732-746 | the first license line becomes the replacement inside the same comment marks, the others are deleted, no other line changes |
| FixerComposition.ExpandingCanMakeAGuard | utils/check-style-clang-format.py:544-547 | a line that is no guard can become an "off" guard when its tab is expanded |
| FixerComposition.ScriptGuardFromATab | utils/check-style-clang-format.py:53-57 | the guard of the script for clang-format is such a line, with a tab for its last space |
| FixerComposition.TabsPass | utils/check-style-clang-format.py:680-684 | after the tabs fix the tabs check passes and trailing whitespace stays gone, even if a new guard appears |
| FixerComposition.LicensePass | utils/check-style-clang-format.py:736-746 | after the license fix, and without the deleted lines, the license check passes |
| FixerComposition.LicenseKeepsTabs | utils/check-style-clang-format.py:736-746 | the license fix does not undo the tabs fix |
| FixerComposition.SplitJoin | utils/check-style-clang-format.py:568-571 | writing lines and reading them back gives the same lines without the deleted ones |
| FixerComposition.ReadFixed | utils/check-style-clang-format.py:536-537 | the next pass reads exactly the fixed lines of the last one |
| FixerComposition.FixAllIsCompliant | utils/check-style-clang-format.py:366-376 | for every text, after the three fixes in order each of the three checks passes |
| FixerComposition.FixAllIsIdempotent | utils/check-style-clang-format.py:568-571 | a second round, single or whole, leaves the text unchanged |
| FixerComposition.ScriptFixesEverything | utils/check-style-clang-format.py:366-376 | both hold for the strings of the script and every text |
| BenchStats.WelfordStep | utils/bench-scheduler.cc:347-351 | one round keeps n times the average at the sum and the moment at the sum of squares minus n times the squared average |
| BenchStats.Accumulate | utils/bench-scheduler.cc:347-351 | from the accumulated values of the samples before this one to those with it: n times the average is their sum, and the moment their sum of squares minus n times the squared average |
| BenchStats.AccumulatePhase | utils/bench-scheduler.cc:353-358 | the accumulated values of all three fields of a phase |
| BenchStats.DeviationsFromMean | utils/bench-scheduler.cc:363-370 | the squared deviations from the mean are the sum of squares minus n times the squared mean |
| BenchStats.AccumulatedAll | utils/bench-scheduler.cc:335-361 | in the end the average is the arithmetic mean and the moment the sum of the squared deviations from it |
| BenchStats.DeviationsAreNatural | utils/bench-scheduler.cc:364 | the sum under the square root is not negative |
| BenchStats.FieldDone | utils/bench-scheduler.cc:363-370 | average and moment in the end give the mean and the standard deviation of the two-pass definition |
| BenchStats.Log | utils/bench-scheduler.cc:323-370 | with two results or more, for all six fields the mean and the root of the mean squared deviation from it; with fewer, nothing |
| EventPopulation.Bench.Cb | utils/bench-scheduler.cc:150-165 | stops at the total and otherwise schedules one event at the drawn delay and counts |
| EventPopulation.Bench.Populate | utils/bench-scheduler.cc:133-137 | as many events as the population, all pending, each due at the next draw |
| EventPopulation.Bench.RunOne | utils/bench-scheduler.cc:141 | one turn runs an event that is due first and keeps the balance of events run and pending; its callback schedules one at the next draw after its own time, unless it stops |
| EventPopulation.Bench.Run | utils/bench-scheduler.cc:122-148 | with a population, the count returned is the total, total + 1 callbacks run, each finds exactly the population pending, in the order of their times; the first events are due at the first draws, and each callback but the last schedules one at its own time plus the next draw |
| EventPopulation.Retired | utils/bench-scheduler.cc:153-157 | running an event that is due first moves it from the pending ones to those that ran, in order |
| EventPopulation.Added | utils/bench-scheduler.cc:162-164 | scheduling an event that is not due before the current time keeps the balance |
| EventPopulation.NothingIsLost | utils/bench-scheduler.cc:122-148 | every event ever scheduled has either run, once, or is pending |
| ChunkedWriter.Sender.StartFlow | examples/socket/socket-bound-tcp-static-routing.cc:188-200 | a new flow starts over: what the socket takes is the stream from its beginning |
| ChunkedWriter.Sender.SendChunk | examples/socket/socket-bound-tcp-static-routing.cc:204-219 | one chunk, as long as the rest of the buffer, the rest of the data and the space allow, read inside the buffer, of which the socket takes the next bytes of the stream, at least one unless it refuses |
| ChunkedWriter.Sender.WriteUntilBufferFull | examples/socket/socket-bound-tcp-static-routing.cc:202-222 | every read is inside the buffer, the socket takes exactly the next bytes of the periodic stream, never more than the total, and is closed unless it refused; a full one is closed untouched, and a plain one short of the total exactly if it has less space than is left |
| ChunkedWriter.Sender.Handle | examples/socket/socket-bound-tcp-static-routing.cc:197-200 | what a socket takes at one event continues the stream, or begins it at the start of a flow |
| ChunkedWriter.Sender.Run | examples/socket/socket-bound-tcp-static-routing.cc:188-222 | over any flows that start and go on, on any sockets sharing the count: what all of them took since the last start is the periodic stream up to the count, and each took exactly its own pieces |
| ChunkedWriter.SmallBufferEndsTheFlow | examples/socket/socket-bound-tcp-static-routing.cc:200-222 | a plain socket with space for 1500 bytes is closed short of the total |
| TimelineIndex.TimelineDataRange.Search | utils/grid.py:113-130 | the index of a range that contains the key, or -1 exactly if there is none |
| TimelineIndex.TimelineDataRange.GetRangesBounds | utils/grid.py:165-181 | the bounds by what the search finds; for an interval the slice covers the ranges that meet it if and only if the search finds the outermost ones, and is exact if and only if, besides, an end in a gap is outside all ranges on its side |
| TimelineIndex.DisjointRangesAreOutermost | utils/grid.py:121-130 | where no two ranges touch, the search always finds the outermost range |
| TimelineIndex.TouchingRangeIsMissed | utils/grid.py:180-181 | for ranges 0-5, 5-9 and 9-12 and the interval 5-7 the first range is left out |
| TimelineIndex.RangeBetweenGapsIsMissed | utils/grid.py:174-175 | a range inside an interval with both ends in gaps is left out |
| TimelineIndex.TimelineEvent.Search | utils/grid.py:217-234 | the index of the key or where it would be inserted |
| TimelineIndex.TimelineEvent.GetEventsBounds | utils/grid.py:255-264 | covers the events in the interval and at most the next one; exact if and only if the interval ends at an event or behind all, or is reversed around one |

## Left out

- TypePaths.StaticInformation.RecordAggregationInfo: looking a name up is a fixed map; how types get registered is not part of this model.
- TypePaths.StaticInformation.DoGather: its three loops are methods of their own, which call each other and it recursively; every edge is required to lead to a registered type, as `TypeId` guarantees.
- WorkerPool: the fields of `Job` objects that threads share become part of the state; a worker dies only in running a job, and elapsed times and console output are not modelled.
- Collector.Collect: the contents written to the XML file are not modelled, and the loop is over results that have all been collected already.
- DependencyOrder.SortToDependencies: reading the linked libraries of a file is not part of this model; Python's recursion limit, which also ends a long but finite order, is not either.
- Handover.Step: link budget, orbits and elevation are arbitrary reals without rounding, the sine that decides at low elevation is an arbitrary outcome, and any order of equally strong satellites is accepted; the number of satellites is the fixed 66 of the scenario; log files and `NtnChoAlgorithm` are left out, since nothing they compute flows back.
- Handover.NtnEvaluator: counters do not wrap around at 32 bits.
- StyleFixer.CheckManuallyFile: the messages for the user are not modelled, and a file that is not valid UTF-8 raises an exception in the original. Which files a check is applied to, the include-prefix and clang-format checks and the process pool are left out, since they depend on the file system and on another program.
- BenchStats.Log: over the reals, without rounding; the square root is any function that is one on the numbers that are not negative.
- EventPopulation.Bench.Run: delays are not negative, and the simulator is one that runs an event due first and finishes the current event when stopped; wall-clock times are left out.
- ChunkedWriter.Socket.Send: takes at least one byte unless it refuses; with an accepted length of 0 forever the loop of the original does not end. A plain socket stands for a connected one of src/internet/model/tcp-socket-base.cc:884-919 whose buffer is not drained during a call.
- TimelineIndex.TimelineDataRange.GetRangesBounds: the ranges are in order and do not overlap by more than a point; where start is behind end, only the case of both in ranges is described. `sort` is not modelled: it passes a comparison function as a positional argument, which Python 3 refuses.
- TimelineIndex.TimelineEvent.GetEventsBounds: the event times are strictly increasing.
- Drawing with GTK and cairo, plotting scripts, example topologies and the remaining checks under tools: user interface, wiring and subprocesses.
