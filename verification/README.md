# Verification of buildfab

This project models the core of buildfab, a runner for stages of dependent build steps, and proves properties of the model. `dafny verify dfyconfig.toml` checks all of it.

## What is modelled

A *stage* is a list of steps with requirements on each other. The executor runs it in parallel, while its output reads as if the steps had run one after another in the order of their declaration.

- `StageTypes.dfy`, `OrderedDisplay.dfy`, `TranscriptContent.dfy`, `SilentOutput.dfy`, `OrderedOutput.dfy`: the ordered output manager. The classes hold the source's fields and loops; they are proved to do what a specification by *frontier* (the first declared step that has not completed) says, and the transcript's shape and contents are proved of that specification for every sequence of callbacks.
- `Dag.dfy`: building the execution graph and looking for cycles, depth first.
- `Scheduler.dfy`, `StageRuns.dfy`, `ScheduleIndependence.dfy`, `FailurePropagation.dfy`, `Progress.dfy`: the executor as a transition system of a coordinator, one worker per step, a bounded channel, a result handler and cancellation. A run is any sequence of labels whose guards hold. Invariants, order of results, independence from the schedule, how far failures block, progress and termination are proved of all runs.
- `StageRunner.dfy`, `StageTranscript.dfy`, `StageOutcomes.dfy`, `CancelledStages.dfy`: the verdict of a stage, the reconciliation of steps that were skipped without a callback, and the composition of scheduler, reconciliation and output manager, for complete runs, with what each step ends with case by case, and for cancelled ones.
- `ConfigMerge.dfy`, `Includes.dfy`, `IncludeGraphs.dfy`, `IncludeResolver.dfy`, `LoaderAgreement.dfy`: the ordered merge of configurations, the recursive walk over includes, the second loader, which resolves all patterns first, and when the two agree.
- `Text.dfy`, `Expression.dfy`, `ExpressionLaws.dfy`, `ExpressionValues.dfy`, `ExpressionCalls.dfy`, `ExpressionTraps.dfy`, `ExpressionPanics.dfy`: the evaluator of conditions, which splits strings and builds no tree.
- `Interpolation.dfy`, `NestedReferences.dfy`, `SinglePass.dfy`: the two ways to replace references to variables, a loop that rescans its result and a single pass of a pattern.

Where the code works in place (output manager, graph, merge, include walk, scans), the model is a class or a method with loops, proved against functions; where goroutines interleave, it is a transition system; the evaluator is a set of recursive functions, as in the source.

## Where the code and its description differ

The model follows the code.

- docs/Project-specification.md:111 says that a failed step blocks its dependents. That is so of the steps that require it directly. A step that is skipped for that reason counts as completed and not as failed (pkg/buildfab/buildfab.go:786-793), so a step that requires only the skipped one runs; `FailurePropagation.BlocksBehindExactly` says for which graphs a failure blocks everything behind it.
- `onerror: warn` turns errors of an action into warnings, but a failed variant selection returns before that (pkg/buildfab/buildfab.go:962-978 and 1019-1023); such a step ends in error without stopping the stage: `StageRunner.VerdictOfRun`.
- Lines that arrive before a start which opens the step's block stay in the buffer and are never written (pkg/buildfab/ordered_output.go:75-86): `TranscriptContent.LosslessExactly` says exactly when. The executor never sends such callbacks, but a cancelled stage hides all lines of the steps declared behind one that never completed: `CancelledStages.EveryRunShowsItsSteps`.
- docs/Features-and-examples.md:260 says that the main file can override what it includes. Included definitions replace those of the main file: `IncludeGraphs.LastDefinerWins`.
- The two loaders differ: the second one follows no nested includes, and drops repeated files where the first merges them again. `LoaderAgreement.LoadersAgreeExactly` says when the outcome is the same, and `LoaderAgreement.ResolvedFailsExactly` when the second one fails.
- In conditions `||` binds tighter than `&&`, and a leading `!` takes the whole rest, unless that is an error: `ExpressionLaws`. `(a) && (b)` is taken as the single operand `a) && (b`: a variable, so an error or, after `env.`, a silent look-up; a number; or, between two like quotes, a quoted string, so that `('x' == a) && (b == 'y')` is true in every context: `ExpressionTraps`. A quote on its own is sliced out of range, and the quoted operator `'<'` ends there too: `ExpressionPanics`.
- `resolveString` may run for ever, and its result can differ from that of `InterpolateVariables`: `Interpolation`, `NestedReferences`.

## Model

| member | source | states |
|---|---|---|
| `StageTranscript.StageShowsSequentialTranscript` | pkg/buildfab/simple.go:92-160 | For every complete uncancelled interleaving of an acyclic stage with distinct, non-empty names, after the skipped steps have been reported, the log of the output manager is one whole block per declared step, in declaration order, with that step's own lines and the report it must end with |
| `StageTranscript.StageSummaryIsComplete` | pkg/buildfab/simple.go:128-150 | In the same runs the callback holds exactly one result for every declared step and none for any other, with the status of the report in its block; `StageOutcomes.StageConcludes` says case by case which |
| `StageTranscript.SilentStepsAreBlocked` | pkg/buildfab/buildfab.go:873-939 | The declared steps that the executor never reported are exactly those with a direct requirement that ended in error, and the reconciliation picks out exactly these |
| `StageTranscript.StepCallbacks` | pkg/buildfab/buildfab.go:949-1053 | The callbacks of one declared step over the whole stage, in order: its start, lines, possible error and completion; or a completion alone when its condition fails; or the two calls of the reconciliation when it is blocked |
| `StageOutcomes.StageConcludes` | pkg/buildfab/buildfab.go:949-1053 | For every step of a complete uncancelled run, in terms of its declaration, the behaviour of its action and the errors among its requirements: the status in the results, the one entry of the summary, the report and the lines of its block. Skipped behind a failure, for a false condition or without a variant; an error for a variant that cannot be selected; for an action that ran its own status and message, a warning if it failed under `onerror: warn`, and an error in the report only if it returned one with a good status |
| `StageOutcomes.StatusByCases` | pkg/buildfab/buildfab.go:962-1023 | The same of the status that the recursion over the graph prescribes |
| `StageOutcomes.StepTellsStory` | pkg/buildfab/buildfab.go:949-1053 | All callbacks about a step, case by case: its start, its lines, an error if the action returned one that nothing took back, and its report; a report alone when the condition is false; start and report when it is blocked |
| `StageOutcomes.RunCompleteStage` | pkg/buildfab/simple.go:92-160 | The same conclusions about the objects: the writer's log, the callback's results and the returned error, and in silence mode no line of output |
| `StageRunner.RunStage` | pkg/buildfab/simple.go:111-147 | Drives the callback with the executor's callbacks and then with those for the skipped steps; returns no error exactly when the graph is valid, the context was not cancelled and no error result belongs to a step that must stop |
| `StageRunner.GetSkippedSteps` | pkg/buildfab/simple.go:521-567 | Returns, in declaration order, exactly the steps without a result of which some requirement has an error result |
| `StageRunner.StageVerdict` | pkg/buildfab/buildfab.go:730-760 | No error exactly when the run was not cancelled and no error result belongs to a step without `onerror: warn`; otherwise names the first such result, and the context error comes last |
| `StageRunner.VerdictOfRun` | pkg/buildfab/buildfab.go:718-761 | A complete uncancelled run succeeds exactly when every step that must end in error asks for warnings only, and such a step can only have failed to select its variant |
| `StageRunner.WarnedErrorExactly` | pkg/buildfab/buildfab.go:962-978 | A step with `onerror: warn` ends in error if and only if it runs and fails to select its variant |
| `StageRunner.FindReadySteps` | pkg/buildfab/buildfab.go:829-848 | The scan returns, once each, exactly the nodes that are not completed, executing or failed and whose dependencies have all completed |
| `StageRunner.HasFailedDependency` | pkg/buildfab/buildfab.go:1761-1768 | True exactly when some direct dependency is in the failed map |
| `OrderedDisplay.TranscriptInOrder` | pkg/buildfab/ordered_output.go:63-147 | For every sequence of callbacks with non-empty names, repeated and out of order ones included: full blocks for the longest completed prefix of the declared steps, then at most the open block of the next one, open exactly when that step has started; shown flags and current step agree with that |
| `OrderedDisplay.CompleteOrderly` | pkg/buildfab/ordered_output.go:92-122 | A completion keeps that shape, whichever of the paths writes the blocks |
| `OrderedDisplay.StartOrderly` | pkg/buildfab/ordered_output.go:63-89 | A start keeps it, and opens a block only at the frontier |
| `TranscriptContent.TranscriptIsSequential` | pkg/buildfab/ordered_output.go:63-137 | If every step prints only between its start and its single completion, the log is what a sequential run would write: inside its step's block every line received, once and in order of arrival, in verbose mode |
| `SilentOutput.SilenceDropsOutput` | pkg/buildfab/ordered_output.go:279-284 | For every sequence of callbacks the log of silence mode is that of verbose mode without the lines of output, and all else that the manager knows is the same |
| `TranscriptContent.TranscriptIgnoresInterleaving` | pkg/buildfab/ordered_output.go:18-27 | Two interleavings of the same callbacks per step leave the same log |
| `TranscriptContent.LinesAccountedFor` | pkg/buildfab/ordered_output.go:125-137 | For arbitrary callbacks: a step that is not shown has all its lines buffered; the block of a shown step holds the lines reported before its result, once each and in order, without those that its own start dropped |
| `TranscriptContent.LosslessExactly` | pkg/buildfab/ordered_output.go:75-86 | Once a step is in its turn and has started or completed, all its lines are in the log if and only if none of its callbacks is a first start, before its completion and in its turn, after lines that it printed already |
| `TranscriptContent.ShownExactly` | pkg/buildfab/ordered_output.go:150-232 | For arbitrary callbacks: a step is shown if and only if every step declared before it has completed and it has started or completed itself |
| `TranscriptContent.LinesCanBeLost` | pkg/buildfab/ordered_output.go:75-86 | A line that comes before the start of the first step is never written |
| `OrderedOutput.OrderedOutputManager.OnStepStart` | pkg/buildfab/ordered_output.go:63-89 | The new state is the one that the specification by frontier prescribes |
| `OrderedOutput.OrderedOutputManager.OnStepComplete` | pkg/buildfab/ordered_output.go:92-122 | The same, with the loops that rescan all declared steps |
| `OrderedOutput.OrderedOutputManager.OnStepOutput` | pkg/buildfab/ordered_output.go:125-137 | The line is buffered, and written if the step is the current one; in silence mode nothing is written |
| `OrderedOutput.OrderedOutputManager.OnStepError` | pkg/buildfab/ordered_output.go:140-147 | The error is recorded and nothing is written |
| `OrderedOutput.OrderedOutputManager.CanShowStepStart` | pkg/buildfab/ordered_output.go:150-191 | True exactly when the step is declared and every step declared before it has completed |
| `OrderedOutput.OrderedOutputManager.CheckAndShowCompletedSteps` | pkg/buildfab/ordered_output.go:194-232 | Writes whole blocks for exactly the completed prefix |
| `OrderedOutput.OrderedOutputManager.CheckAndShowNextStep` | pkg/buildfab/ordered_output.go:235-258 | Opens the frontier step with its buffered lines if it has started and is not shown |
| `OrderedOutput.OrderedOutputManager.FlushBufferedOutput` | pkg/buildfab/ordered_output.go:287-295 | Writes the buffered lines in order, or nothing in silence mode, and empties the buffer |
| `OrderedOutput.OrderedStepCallback.OnStepComplete` | pkg/buildfab/ordered_output.go:363-374 | The callback remains the run of all that it was called with, and adds one result |
| `OrderedOutput.OrderedStepCallback.constructor` | pkg/buildfab/ordered_output.go:342-355 | Every declared name is registered and nothing is shown |
| `CancelledStages.StepBehindIsHidden` | pkg/buildfab/ordered_output.go:194-232 | A step that reports its start, any lines and its completion while a step declared before it has not completed: none of its lines is written |
| `Dag.BuildDAG` | pkg/buildfab/buildfab.go:1155-1192 | Succeeds exactly when all actions are known, all requirements are in the stage and the graph is acyclic; then dependents are the inverse of dependencies, repeats included; each error names a real culprit |
| `Dag.DetectCycles` | pkg/buildfab/buildfab.go:1195-1231 | Terminates, and returns no error exactly when a topological order exists; an error names a node on a real cycle |
| `Dag.CycleDetector.Dfs` | pkg/buildfab/buildfab.go:1199-1219 | Finishes every node that it reaches after all that it requires, or finds a cycle through its stack |
| `Dag.LinkDependents` | pkg/buildfab/buildfab.go:1174-1183 | Afterwards each node is listed among the dependents of a dependency as often as it names it |
| `Dag.OrderedHasNoCycle` | pkg/buildfab/buildfab.go:1195-1231 | A graph with a topological order has no cycle |
| `Scheduler.ProtocolAlways` | pkg/buildfab/buildfab.go:764-946 | In every state of every run, cancelled or not, a started step is in exactly one place (coordinator, worker, channel, results), only steps with completed dependencies are started, and the failed map holds exactly the error results |
| `StageRuns.ChannelProtocol` | pkg/buildfab/buildfab.go:774-819 | Every step sends at most once, a sender always finds room in the channel, and at the close nobody is left to send and every started step has been received |
| `StageRuns.ResultsExtendDependencies` | pkg/buildfab/buildfab.go:784-793 | The results of any run, even a cancelled one, list every step once and after all its dependencies |
| `StageRuns.SkipDecisionIsStable` | pkg/buildfab/buildfab.go:889-898 | Reading the failed map later than the scan gives the same decision |
| `StageRuns.ActionsStartAfterSuccess` | pkg/buildfab/buildfab.go:889-938 | An action is under way only if its condition holds and all its direct dependencies have results that are not errors |
| `StageRuns.FaithfulAlways` | pkg/buildfab/buildfab.go:949-1053 | In uncancelled runs every step has reported a prefix of its script, exactly its plan once its result is decided, and every result has the status that its dependencies prescribe |
| `CancelledStages.RunsAreDisciplined` | pkg/buildfab/buildfab.go:949-1053 | At any time of any run, a cancelled one included, every step has printed only between its start and its single completion |
| `CancelledStages.EveryRunShowsItsSteps` | pkg/buildfab/simple.go:111-150 | After any run, a cancelled one included, and the reconciliation, the log is the sequential rendering of what the steps reported: it holds all lines of exactly those steps before which every declared step has completed |
| `CancelledStages.CancelledActionsFail` | pkg/buildfab/buildfab.go:923-931 | Whatever it returns, an action that is under way at the cancellation ends in error, unless its worker had already looked at the context |
| `CancelledStages.CancellationStopsStarts` | pkg/buildfab/buildfab.go:873-887 | After the cancellation no step is started, but for one that had passed the last look at the context |
| `ScheduleIndependence.RunRefinesSequential` | pkg/buildfab/buildfab.go:829-938 | Every complete uncancelled run fills the result map that evaluating the steps one by one in any topological order fills |
| `ScheduleIndependence.ResultIsDetermined` | pkg/buildfab/buildfab.go:886-938 | Each result so far is the one that the recursion over the graph prescribes; `StageOutcomes.StatusByCases` says case by case which |
| `ScheduleIndependence.CompleteRunHasAll` | pkg/buildfab/buildfab.go:851-870 | A complete uncancelled run has exactly one result for every node |
| `FailurePropagation.BlocksBehindExactly` | pkg/buildfab/buildfab.go:1761-1768 | For a closed acyclic graph: in every stage with these requirements a failed step gets everything skipped that requires it, directly or through others, if and only if every requirement of a requirement is declared as a requirement too |
| `FailurePropagation.FailureIsNotTransitive` | pkg/buildfab/buildfab.go:786-793 | The plainest failing graph, a chain of three whose first step fails: the second is skipped, the third runs |
| `Progress.WorkIsBounded` | pkg/buildfab/buildfab.go:821-946 | No run does more steps of work than a measure of the stage (unstarted, in flight, buffered) |
| `Progress.SomethingToDo` | pkg/buildfab/buildfab.go:829-870 | While a node of an acyclic graph is incomplete, some node is ready or has been started and not received yet |
| `Progress.NeverStuck` | pkg/buildfab/buildfab.go:821-946 | From every state of every run, work or the end of the run is at most five labels away, without cancelling |
| `Progress.RunsCanFinish` | pkg/buildfab/buildfab.go:821-946 | Every run of an acyclic stage can be continued to its end; a run that was not cancelled ends uncancelled |
| `ConfigMerge.Config.MergeConfig` | pkg/buildfab/config.go:183-204 | The scan-and-replace loops leave what the ordered merge of the two contents prescribes |
| `ConfigMerge.MergeKeepsNames` | pkg/buildfab/config.go:183-197 | Names of the base keep their positions; new names are appended once each; no duplicate is added |
| `ConfigMerge.MergeLookup` | internal/config/config.go:183-195 | Looking a name up in the merge gives the last included definition, else the base's |
| `ConfigMerge.LastNamedExactly` | pkg/buildfab/config.go:183-197 | The definition that wins among those of one file is the last one of that name |
| `ConfigMerge.MergeAssociatesExactly` | internal/config/include.go:184-208 | The merge is associative around a middle operand if and only if that operand defines no name twice |
| `ConfigMerge.MergeFirstOrOneByOne` | internal/config/include.go:106-127 | Folding files into the main configuration one by one equals merging them first and then merging the outcome, as sequences of actions and maps of stages |
| `ConfigMerge.MergeAllLookup` | pkg/buildfab/config.go:183-204 | After folding files, the last file that defines a name decides, else the base |
| `Includes.IncludeProcessor.ProcessIncludes` | pkg/buildfab/config.go:77-89 | Merges the files of the walk in its order and restores the visited set, or returns the walk's error; terminates because the files outside the visited set decrease |
| `Includes.IncludeProcessor.ProcessGlobPattern` | pkg/buildfab/config.go:131-156 | An error for a missing directory, else for a bad pattern; else the same for the matches, in order, whose last characters spell .yml or .yaml in any case |
| `Includes.TargetsExactly` | pkg/buildfab/config.go:131-156 | What a pattern stands for in the walk, character by character of the file names |
| `Includes.IncludeProcessor.ProcessExactFile` | pkg/buildfab/config.go:109-128 | The same for one file, with the circular check before the existence check |
| `Includes.IncludeProcessor.LoadAndMergeFile` | pkg/buildfab/config.go:159-207 | What a file includes is merged before its own definitions |
| `Includes.LoadConfig` | pkg/buildfab/config.go:49-55 | The main file with the whole walk merged into it, or the walk's error |
| `IncludeGraphs.IncludesFailExactly` | pkg/buildfab/config.go:77-128 | Following includes fails if and only if some chain of includes ends in a file that it has been through, in a missing or unloadable file, or in a bad pattern |
| `IncludeGraphs.BlameIsReal` | pkg/buildfab/config.go:109-156 | The error that is returned is met by a chain of includes |
| `IncludeGraphs.CircularIsCycle` | pkg/buildfab/config.go:109-114 | A reported circular include is a real cycle through the named file |
| `IncludeGraphs.DiamondsAreAccepted` | pkg/buildfab/config.go:122-123 | Two files may include the same third file: it is merged for each, without an error |
| `IncludeGraphs.MergedExactlyReachable` | pkg/buildfab/config.go:159-181 | A file is merged if and only if a chain of includes reaches it, and always after everything that it includes |
| `IncludeGraphs.LastDefinerWins` | pkg/buildfab/config.go:183-204 | Each action and stage has the definition of the last definer in the order of merging, else that of the main file, whose names keep their places |
| `IncludeResolver.Resolver.ResolveIncludes` | internal/config/include.go:28-48 | Every resolved file once, where it comes first, or the first error; the resolved files are exactly the listed paths and the matches of listed globs with a YAML name |
| `IncludeResolver.ResolvedExactly` | internal/config/include.go:50-104 | What a pattern resolves to in the second loader, or its error |
| `IncludeResolver.DedupKeepsOrder` | internal/config/include.go:40-43 | The files that are left of a list stand in the order of their first mention |
| `IncludeResolver.Resolver.LoadIncludedConfigs` | internal/config/include.go:106-127 | The fold of the listed files, or the first error |
| `IncludeResolver.Load` | internal/config/config.go:57-77 | The main file with the resolved files merged into it |
| `IncludeResolver.LoadAllIs` | internal/config/include.go:106-127 | Loading succeeds exactly on distinct files that can all be read and parsed, and then merges them in order |
| `IncludeResolver.LoadBlamesFirst` | internal/config/include.go:106-127 | Otherwise it blames the first file that comes back, cannot be read or cannot be parsed, by the kind of its fault |
| `IncludeResolver.ResolvingBlamesFirst` | internal/config/include.go:32-36 | Resolving blames the first pattern that stands for nothing, by its own error |
| `IncludeResolver.ResolvedIsNeverCircular` | internal/config/include.go:106-113 | On a resolved list the circular check never fires |
| `LoaderAgreement.LoadersAgreeExactly` | internal/config/config.go:57-77 | Whenever the walk succeeds, nested and repeated includes included, the second loader succeeds too, and they agree if and only if the files of the walk and the listed files, each once, give the same names in the same order and no name another last definition |
| `LoaderAgreement.FlatLoadersAgreeExactly` | internal/config/config.go:57-77 | On flat includes with any repeats: if and only if no name changes its last definition when each file is kept only where it comes first |
| `LoaderAgreement.ResolvedFailsExactly` | internal/config/include.go:28-48 | The second loader fails if and only if the list of the main file holds a bad pattern, a missing file or one that cannot be loaded; then the first loader fails too |
| `LoaderAgreement.LoadersBlameDifferently` | internal/config/include.go:28-48 | An unreadable file listed before a missing one: the first loader blames the former, the second the latter |
| `LoaderAgreement.LoadersAgree` | internal/config/config.go:57-77 | On flat includes without a repeated file they always agree |
| `LoaderAgreement.GlobIsItsFiles` | pkg/buildfab/config.go:131-156 | In both loaders a good glob may be replaced by the list of its matches with a YAML name; in the second one, if they exist |
| `LoaderAgreement.LoadersDifferOnRepeats` | internal/config/include.go:40-43 | Two files with one name, the first mentioned again: the configurations of the two loaders, and they differ |
| `LoaderAgreement.LoadersDifferOnNesting` | internal/config/include.go:129-133 | A file that only an included file includes is missing from the second loader's configuration |
| `Expression.FindOperator` | pkg/buildfab/expression.go:140-154 | The scan with its count of parentheses returns exactly the first operator, with blanks around it, outside all parentheses |
| `ExpressionLaws.PrintThenEvaluate` | pkg/buildfab/expression.go:119-218 | A printed conjunction of disjunctions of balanced atoms evaluates to the conjunction of the disjunctions of the atoms' truth values |
| `ExpressionLaws.OrBindsTighter` | pkg/buildfab/expression.go:134-212 | In both mixed forms logical or groups before logical and |
| `ExpressionLaws.WrappingChangesNothing` | pkg/buildfab/expression.go:89-93 | Any number of parentheses around a whole expression leaves its outcome unchanged, errors included |
| `ExpressionLaws.EvaluateMarked` | pkg/buildfab/expression.go:63-78 | The `${{ }}` marker around an expression is taken off before it is evaluated |
| `ExpressionLaws.NegationTakesAll` | pkg/buildfab/expression.go:121-135 | A leading `!` negates the value of everything that follows it; if that breaks off, so does the whole; if it is an error, the outcome is that of the comparison, call and variable parsers on the whole text |
| `ExpressionTraps.NegatedOperand` | pkg/buildfab/expression.go:100-113 | `!1 == true` evaluates, as a comparison of `!1` with true, although `1 == true` is an error |
| `ExpressionLaws.GroupedLeft` | pkg/buildfab/expression.go:138-176 | A well-nested group on the left of an operator is evaluated on its own when the text does not also end in a parenthesis |
| `ExpressionLaws.ComparisonEvaluates` | pkg/buildfab/expression.go:221-260 | Each of the seven ways to write a comparison between two operands compares their values: no operator is taken for a shorter one that it contains |
| `ExpressionValues.StringsCompare` | pkg/buildfab/expression.go:414-433 | All seven comparisons of two strings: equal, or before one another as a proper prefix or by the first character that differs |
| `ExpressionValues.NumbersCompare` | pkg/buildfab/expression.go:371-412 | All seven comparisons of a number with a number or a string: by the order of the reals with the infinities; a string that is no number counts as zero |
| `ExpressionValues.TruthAgainstString` | pkg/buildfab/expression.go:414-433 | A truth value on the left of a string is compared as its text |
| `ExpressionValues.StringAgainstTruth` | pkg/buildfab/expression.go:414-433 | And on its right |
| `ExpressionValues.TruthsCompare` | pkg/buildfab/expression.go:435-448 | Two truth values are equal or not; ordering them is no comparison, so the text is a call or an operand |
| `ExpressionValues.TruthAgainstNumber` | pkg/buildfab/expression.go:448-448 | A truth value and a number cannot be compared in any of the seven ways |
| `ExpressionValues.SystemTest` | pkg/buildfab/expression.go:588-598 | A test of the system by name holds on that system and on no other |
| `ExpressionValues.QuotedEvaluates` | pkg/buildfab/expression.go:543-552 | A quoted text is a string, false only if it is empty or spells false |
| `ExpressionValues.NumberEvaluates` | pkg/buildfab/expression.go:554-560 | A text that is read as a number is one, false only if it is zero |
| `ExpressionValues.TruthLiteralsEvaluate` | pkg/buildfab/expression.go:562-574 | The two truth values |
| `ExpressionValues.SpecialNamesEvaluate` | pkg/buildfab/expression.go:588-608 | Where the names os, arch, ci and branch are looked up |
| `ExpressionValues.PrefixedNamesEvaluate` | pkg/buildfab/expression.go:610-632 | Where names with the prefixes env., inputs. and matrix. are looked up |
| `ExpressionValues.OrdinaryNameEvaluates` | pkg/buildfab/expression.go:634-639 | Any other name is a variable or an error |
| `ExpressionValues.BothSidesCount` | pkg/buildfab/expression.go:138-212 | A logical operator evaluates both sides: what goes wrong on either side goes wrong for the whole text |
| `ExpressionValues.UnspacedIsOneName` | pkg/buildfab/expression.go:134-176 | Without blanks there is no logical operator |
| `ExpressionCalls.TextFunctionsEvaluate` | pkg/buildfab/expression.go:288-317 | contains, startsWith and endsWith: whether the second text stands in, begins or ends the first one |
| `ExpressionCalls.NoCallExactly` | pkg/buildfab/expression.go:263-270 | A text with a list in parentheses at its end is a call if and only if its name is made of letters, digits and underscores and the list is on one line |
| `ExpressionCalls.MatchesEvaluates` | pkg/buildfab/expression.go:318-331 | matches asks for the second text as the pattern and the first one as the subject; a bad pattern makes the whole text a variable |
| `ExpressionCalls.VersionsEvaluate` | pkg/buildfab/expression.go:342-363 | semverCompare gives the comparison of the first version with the second one as a number |
| `ExpressionCalls.FileExistsEvaluates` | pkg/buildfab/expression.go:332-341 | fileExists takes one path |
| `ExpressionCalls.OtherCallsFail` | pkg/buildfab/expression.go:364-366 | With an unknown name a call is an error, so the whole text is looked up as a variable |
| `ExpressionCalls.CallsFail` | pkg/buildfab/expression.go:273-285 | A call with any number of arguments: with one that does not evaluate, or with more or fewer than the function takes, the whole text is looked up as a variable; an argument that breaks off breaks the call off |
| `ExpressionTraps.OperatorIsLost` | pkg/buildfab/expression.go:89-93 | An operator between two groups without further parentheses is never seen: stripped of the outer parentheses, the text in between is taken for a comparison, a call or a variable |
| `ExpressionTraps.TwoGroupsAreOneName` | pkg/buildfab/expression.go:89-93 | Unless a comparison operator divides that text in two, it is one operand, whatever quotes are in it |
| `ExpressionTraps.TwoGroupsExactly` | pkg/buildfab/expression.go:543-586 | All outcomes of that: a quoted string if and only if the first group begins and the second ends with the same quote, else a number if it is read as one, else the variable of that name, else an error |
| `ExpressionTraps.QuotedGroupsAlwaysHold` | pkg/buildfab/expression.go:543-552 | In the first case the condition is true in every context, whatever the groups say |
| `ExpressionTraps.SameComparisons` | pkg/buildfab/expression.go:221-231 | Two comparisons with the same operator, one in each group, are such a text: each operator occurs in it twice or not at all |
| `ExpressionTraps.EmptyGroupsHold` | pkg/buildfab/expression.go:89-93 | An instance: two groups of an empty string with a logical and between them are true, without the parentheses they are false |
| `ExpressionTraps.ComparisonGroupsFail` | pkg/buildfab/expression.go:221-231 | Two equality tests in groups, with quotes on their right sides, are an error |
| `ExpressionTraps.ComparisonGroupsHold` | pkg/buildfab/expression.go:221-231 | With the quotes at the outer ends they are always true |
| `ExpressionTraps.EnvironmentGroups` | pkg/buildfab/expression.go:611-615 | After `env.` there always is such a variable: `(env.A) && (env.B)` asks the environment for an absurd name and is no error |
| `ExpressionTraps.ParenthesizedConjunctionFails` | pkg/buildfab/expression.go:89-93 | The plainest instance: `(a) && (b)` over two defined variables is an error |
| `ExpressionPanics.VariablePanicsExactly` | pkg/buildfab/expression.go:543-552 | The slice of a quoted string is out of range if and only if the text is a quote on its own |
| `ExpressionPanics.LoneQuotePanics` | pkg/buildfab/expression.go:222-231 | A quote on its own breaks evaluation off, and so does a quoted operator, whose quotes the split tears apart |
| `ExpressionPanics.AttachedNeverPanics` | pkg/buildfab/expression.go:86-116 | Texts are cut only at parentheses, commas and the characters of operators, and lose only blanks next to a cut: if every quote can go left or right over blanks to another character, evaluation returns a value or an error |
| `ExpressionPanics.QuotedTextNeverPanics` | pkg/buildfab/expression.go:86-116 | In particular a quoted text without those characters, even of blanks only, is never torn apart |
| `ExpressionPanics.UnquotedNeverPanics` | pkg/buildfab/expression.go:86-116 | In particular for every expression without quotes |
| `Interpolation.ResolveString` | internal/config/config.go:129-157 | What the loop comes to within a number of rounds: a text, an unclosed or undefined reference, or nothing yet |
| `Interpolation.ResolveEnds` | internal/config/config.go:129-157 | If one of the characters `$`, `{`, `}` occurs in no value, the loop ends within as many rounds as the text has of it, plus one |
| `Interpolation.ResolveMayNotEnd` | internal/config/config.go:152-153 | A variable whose value is a reference to itself keeps the loop running for ever |
| `NestedReferences.EndsExactly` | internal/config/config.go:129-157 | For values made of whole references to defined variables and of text in which no marker begins (`$HOME` and `${HOME}` are such texts), the loop ends on every text if and only if no variable refers to itself, directly or through others |
| `NestedReferences.AcyclicEnds` | internal/config/config.go:134-154 | Without such a circle it ends on every text, undefined references included |
| `NestedReferences.CycleNeverEnds` | internal/config/config.go:134-154 | Mentioning a variable on a circle keeps the loop running for ever |
| `Interpolation.InterpolateReference` | pkg/buildfab/variables.go:16-34 | Behind any text in which no marker begins, the single pass replaces a reference by its value, or keeps it if it has none, and goes on behind it |
| `SinglePass.PiecesAreReplaced` | pkg/buildfab/variables.go:16-34 | Of a text cut into references and stretches in which no marker begins, each piece is replaced or kept on its own |
| `SinglePass.LoopReplacesPieces` | internal/config/config.go:129-157 | So does the loop, if all references are defined and the values are plain |
| `Interpolation.UndefinedEnds` | internal/config/config.go:147-150 | The loop ends in an error at the first reference if it has no value |
| `Interpolation.UnclosedEnds` | internal/config/config.go:139-142 | It ends in an error at an opening marker that nothing closes |
| `Interpolation.InterpolatorsAgree` | pkg/buildfab/variables.go:10-37 | For plain variables the loop ends after at most as many rounds as there are opening markers; it succeeds if and only if the single pass leaves none, and then both texts are equal |
| `Interpolation.ResolvesToInterpolation` | pkg/buildfab/variables.go:16-34 | For plain variables every text that the loop gives is the one that the single pass gives |
| `Interpolation.EmptyValueMatters` | internal/config/config.go:152-153 | With an empty value there is a text on which the two differ |
| `Interpolation.BraceValueMatters` | internal/config/config.go:152-153 | With a value that is an opening brace there is a text on which the two differ |
| `Interpolation.DollarValueMatters` | internal/config/config.go:152-153 | With a value that is a `$` there is a text on which the two differ |
| `Interpolation.HalfMarkerMatters` | internal/config/config.go:152-153 | With a value that is a `$` and one brace there is a text on which the two differ |
| `Interpolation.NestedValueMatters` | internal/config/config.go:152-153 | With a value that is a reference to another variable there is a text on which the two differ |
| `Interpolation.OddNamesMatter` | pkg/buildfab/variables.go:16-17 | With an empty name, or a name with a closing brace that no other brace follows, the loop replaces a reference that the pattern does not match |

## Left out

- Shell and process execution, streaming pipes, git and version built-ins, the registry of actions: an action is an arbitrary list of output lines and an arbitrary result. Reader goroutines of a process are not joined in the source; that all output of a step precedes its completion is an assumption on the scheduler's callbacks, and `TranscriptContent.LinesAccountedFor` covers the case where it fails.
- Environment, file and version look-ups, regular expressions of `matches`, number parsing and formatting: functions of the expression context.
- `executeDAGWithOrderedStreaming` and `executeDAGWithParallel`: they repeat the scheduler and are not used with a step callback.
- `MaxParallel` and `Only`: the modelled executor does not read them.
- `RunStageStep`, `RunAction`, `WithRequires`, dry runs, summaries, colours, durations, enhanced messages, re-indented commands, the UI package and the command line: presentation.
- YAML parsing, path cleaning and symbolic links: a file name is a cleaned path, a file is unreadable, unparsable or a list of include patterns with its definitions, and a glob pattern carries its matches.
- Validation of a loaded configuration: a single pass of independent checks. Of it only the rule that step names are not empty is used, as a requirement, because the empty name is the manager's mark for "no current step" (pkg/buildfab/buildfab.go:549).
- The mutex of the output manager: each callback is one atomic step, and the callback's result is appended in the same step as the completion.
- Unlocked reads of the `failed` map race in the memory model; they are taken as atomic, and what is proved is that the value read cannot change.
- The order of iteration over Go maps is an arbitrary choice in every loop that has one.
- `Status` and `StepStatus` are one type: their members are the same. The sleep intervals of the polling loops are empty labels.
- Scheduler.FinalStatus: results carry a name and a status only; messages and durations are in the reports of the callbacks.
- In a cancelled run an action may return any result: what a killed process reports is not modelled.
- StageTranscript.StageShowsSequentialTranscript: asks for distinct step names. A name that is declared twice is one node of the graph; `OrderedDisplay.TranscriptInOrder` covers such declarations for the output manager alone.
- OrderedOutput.OrderedOutputManager.OnStepOutput: the writer is a log whose lines carry the step on whose behalf they are written; the text layout of a line is left out.
- ConfigMerge.Config.MergeConfig: stands for all three copies of the loop in the source; the conversion between the two `Action` types of the packages is a copy and is left out.
- Includes.LoadConfig: says nothing of the configuration after an error, since the source discards it.
- Interpolation.ResolveString: takes a number of rounds because the source's loop need not end; `Interpolation.ResolveEnds` gives a sufficient condition for any values, and `NestedReferences.EndsExactly` the exact one for values made of whole references and text in which no marker begins. Values with an opening marker that is not closed in them, or that end in `$` or in `$` and a brace, are not characterised.
- Interpolation.InterpolatorsAgree: its conditions on names and values are sufficient; for each of them a lemma gives variables that break it and a text on which the two differ, but an exact condition on all variables together is not given.
- ExpressionTraps.TwoGroupsExactly: of groups with a comparison operator that divides the text in two, `ExpressionTraps.OperatorIsLost` says only that the logical operator is not seen.
- ExpressionPanics.AttachedNeverPanics: sufficient for every text; which texts break off exactly depends on the branches that evaluation takes, and only the base case, `ExpressionPanics.VariablePanicsExactly`, is stated as an equivalence.
- StageRunner.RunStage: the executor's callbacks and results are a parameter; that they are those of a run of the scheduler is a requirement of `StageOutcomes.RunCompleteStage`. Looking the stage up, the dry run and the printed summary are left out.
- `InterpolateAction`, `InterpolateStep` and `ResolveVariables`: they apply the modelled functions to single fields.
- Float rounding: a number is a real, an infinity or not a number.
- Strings are sequences of code points; the source indexes bytes, which makes no difference for the ASCII characters that are searched for.
