# A verified model of a small `make`

This project models the core of a small clone of `make`. The tool reads a rule
file and builds the targets it is asked for, or the first rule's targets when
it is asked for none. A rule file has three kinds of lines:

- rule headers, `targets : prerequisites`;
- recipe lines, which start with a tab;
- assignments, `name = value`.

A `#` starts a comment. To build a target, the tool walks its prerequisites
breadth first and turns every name it reaches into a task. A scheduler then
runs each task after the tasks it depends on. A task is skipped when its file
is at least as new as its prerequisites' files. Otherwise its recipes run one
after the other, each in a process of its own, and the first failing recipe
fails the target. The first failing target stops the build.

The model has these modules, one per source file:

- `StringOps` (string_ops.dfy): `trim` and `split`. The parser has its own
  copies of both, and they are the same code, so one model covers both.
- `Variables` (variables.dfy): the variable store. It is a class whose two maps
  `AddVariable` updates in place. Its `ExpandVariables` is, like the source, a
  stub that returns the empty string.
- `Expansion` (expansion.dfy): a concrete expansion function. It is built from
  what the store's tests assert, because the source's expansion is not written
  yet. Every expansion in the parser goes through a parameter of type
  `Expander`, so the parser's properties hold for any expander. This module
  shows that the test-derived one gives the outputs the tests expect.
- `Lexicographic` (lexicographic.dfy): string order, plus the sort followed by
  de-duplication that a rule header applies to each prerequisite list.
- `MakefileParser` (makefile_parser.dfy): the constructor's line loop, as a
  method `Parse` proved equal to a step function `ParseSpec`. It also holds the
  four queries: `GetRecipes`, `GetPrereqs`, `HasCircularDependency` and
  `Outdated`. The queries take the parsed `Model` as a value, because nothing
  changes it after construction.
- `ParserProperties` and `QueryProperties`: lemmas about the parser and its
  queries, including the unit tests' cases.
- `TaskGraph` (task_graph.dfy): the scheduler `run`, with task outcomes given
  as the oracle `result`. It runs in waves: the whole ready queue is launched,
  then the wave's results are handled in name order.
- `TaskGraphExamples`: the scheduler's unit tests.
- `MakefileBuilder` (makefile_builder.dfy): the driver `build`. It contains the
  breadth-first task walk, the recipe-running function of each task and the
  loop over the targets. Starting a process is the oracle `exec`, the file
  system is the oracle `files`, and what the driver prints is a list of events.
  Both oracles take the position of the requested target whose run it is,
  because each target's run looks at the file system afresh.

Imperative code is modelled as methods with loops. Each such method is proved
equal to a specification function, and the properties are lemmas about that
function.

| Method | Specification function |
|---|---|
| `Parse` | `ParseSpec` |
| `GetRecipes` | `RecipesSpec` |
| `HasCircularDependency` | `Bfs` |
| `Outdated` | `Stale` |
| `TaskGraph.Run` | `Schedule` |
| `RunRecipes` | `RecipesFrom` |
| `Taskify` | `TaskifySpec` |
| `Build` | `BuildSpec` |

## Model

| member | source | states |
|---|---|---|
| StringOps.Find | src/makefile-parser.cpp:51-54 | the index of the first occurrence of a character, or the length when it is absent (`npos`) |
| StringOps.Trim | src/string-ops.cpp:10-18 | the trimmed string starts and ends with a non-blank character, or is empty |
| StringOps.TrimIsSlice | src/string-ops.cpp:10-18 | the result is empty exactly when the input is all spaces and tabs; otherwise it is the slice between the first and the last non-blank character |
| StringOps.TrimKeeps | src/string-ops.cpp:10-18 | every non-blank character of the input survives trimming |
| StringOps.TrimIdempotent | src/string-ops.cpp:10-18 | trimming twice is trimming once |
| StringOps.TrimExamples | tests/string-ops-tests.cpp:6-7 | inner blanks are kept and an all-blank string trims to "" |
| StringOps.Split | src/string-ops.cpp:25-33 | no piece is empty or holds the delimiter, and the pieces concatenated give the input without its delimiters |
| StringOps.SplitAtDelimiter | src/string-ops.cpp:25-33 | splitting distributes over a delimiter |
| StringOps.SplitRun | src/string-ops.cpp:25-33 | a delimiter-free input is one piece, or none when it is empty |
| StringOps.SplitOnlyDelimiters | src/string-ops.cpp:25-33 | an input made only of delimiters gives no pieces |
| StringOps.SplitWord | src/string-ops.cpp:25-33 | a run of delimiters, a word, then a rest that starts at a delimiter: the word is the first piece and the rest gives the others |
| StringOps.SplitThree | src/string-ops.cpp:25-33 | three words between runs of delimiters of any length split into those three words |
| StringOps.SplitExample | tests/string-ops-tests.cpp:11-12 | the test's padded three-word string splits into "a", "b", "c" |
| Variables.Variables.constructor | include/variables.h:12 | a new store is empty |
| Variables.Variables.Copy | src/makefile-parser.cpp:204 | a copy of the store holds the same two maps |
| Variables.Variables.AddVariable | src/variables.cpp:4-8 | the name is mapped to the value and the line, overwriting any earlier definition; other names are unchanged; both maps keep the same keys |
| Variables.Variables.ExpandVariables | src/variables.cpp:11-15 | the stub returns the empty string for every input |
| Variables.Define | src/variables.cpp:4-8 | the store after a definition keeps its two maps on the same keys |
| Expansion.Expand | tests/variables-tests.cpp:6-37 | text without `$` expands to itself, whatever the store holds |
| Expansion.ParenReference | tests/variables-tests.cpp:17-19 | `$(name)` refers to exactly the text between the parentheses |
| Expansion.SingleReference | tests/variables-tests.cpp:29-30 | `$c` refers to the one-character name `c` |
| Expansion.UnmappedIsEmpty | tests/variables-tests.cpp:29-30 | an unmapped name expands to nothing |
| Expansion.MappedIsValue | tests/variables-tests.cpp:17-19 | a mapped name whose value is plain text is replaced by that value |
| Expansion.SingleMapped | src/makefile-parser.cpp:204-217 | `$c` for a mapped one-character name gives its value (the automatic variables) |
| Expansion.DollarDollar | src/makefile-parser.cpp:37-38 | with `$` mapped to itself, "$$" gives "$" |
| Expansion.Unterminated | tests/variables-tests.cpp:21-27 | an unclosed `$(` is an unterminated-reference error on the line being expanded |
| Expansion.CycleIsRecursive | tests/variables-tests.cpp:39-52 | a chain of variables that leads back to its first one, of any length, is a recursive-variable error |
| Expansion.ChainExample | tests/variables-tests.cpp:41-45 | the test's A, B, C chain fails |
| Expansion.NestedExample | tests/variables-tests.cpp:8-19 | the test's nested input expands to "+++a+++__a__+++spacespace  equals" |
| Expansion.UnterminatedExample | tests/variables-tests.cpp:21-22 | the test's `$(unterminated)` fails as unterminated |
| Expansion.UnsetSingleNamesExample | tests/variables-tests.cpp:29-30 | "$(VAR5) " gives "xy " |
| Expansion.UntrimmedNameExample | tests/variables-tests.cpp:32-33 | names are not trimmed: "$(three   space)" gives "threespace" |
| Expansion.DollarDollarExample | tests/variables-tests.cpp:35-36 | the test's "$$" gives "$" |
| Lexicographic.LessIrreflexive | src/makefile-parser.cpp:165-166 | no string is before itself |
| Lexicographic.LessTransitive | src/makefile-parser.cpp:165-166 | string order is transitive |
| Lexicographic.LessTotal | src/makefile-parser.cpp:165-166 | any two different strings are ordered one way |
| Lexicographic.LessAsymmetric | src/makefile-parser.cpp:165-166 | string order is asymmetric |
| Lexicographic.Insert | src/makefile-parser.cpp:165-170 | inserting into a strictly sorted list keeps it strictly sorted, with the old elements and the new one |
| Lexicographic.SortUnique | src/makefile-parser.cpp:165-170 | sort then unique gives a strictly sorted list with exactly the input's elements |
| Lexicographic.StrictlySortedUnique | src/makefile-parser.cpp:165-170 | two strictly sorted lists with the same elements are equal, so the result is determined |
| Lexicographic.SortUniqueSorted | src/makefile-parser.cpp:165-170 | a strictly sorted list is left unchanged |
| Lexicographic.SortUniqueSameElements | src/makefile-parser.cpp:165-170 | the result depends only on the set of elements |
| MakefileParser.StripComment | src/makefile-parser.cpp:51-54 | the line is cut at its first `#`: a prefix with no `#` in it |
| MakefileParser.FindOrder | src/makefile-parser.cpp:61-64 | comparing first positions means "occurs before any of the other" |
| MakefileParser.ClassifyMeaning | src/makefile-parser.cpp:56-66 | each line class in terms of the text: a blank line is a no-op, else a leading tab is a recipe, else the first `=` or `:` decides, and neither is invalid |
| MakefileParser.SeparatorOrder | src/makefile-parser.cpp:61-64 | equal first positions mean neither separator is present |
| MakefileParser.AssignedName | src/makefile-parser.cpp:106-122 | a defined name is non-empty and trimmed |
| MakefileParser.ApplyRecipe | src/makefile-parser.cpp:76-99 | the recipe loop over the active targets computes `AddRecipes` |
| MakefileParser.ApplyPrereqs | src/makefile-parser.cpp:157-171 | the prerequisite loop computes `AddPrereqs` |
| MakefileParser.AppendAll | src/makefile-parser.cpp:160-162 | pushing items one by one appends them |
| MakefileParser.ReadAssignment | src/makefile-parser.cpp:101-126 | the store is updated in place exactly as `Assign` says, or the same error is returned |
| MakefileParser.ReadRule | src/makefile-parser.cpp:127-176 | a rule line gives what `Rule` says |
| MakefileParser.ReadLine | src/makefile-parser.cpp:50-183 | one line gives what `Step` says, and the store in place agrees with the new state |
| MakefileParser.Parse | src/makefile-parser.cpp:29-187 | the constructor's loop gives exactly `ParseSpec` of the lines, numbered from 1 and starting with `$` defined as itself on line 0 |
| MakefileParser.ParseFromNext | src/makefile-parser.cpp:47-48 | parsing the lines from index `i` is the step of line `i` (numbered `i + 1`), then the rest |
| MakefileParser.AutoVariables | src/makefile-parser.cpp:203-217 | `@` is bound to the target; when it has prerequisites, `<` is bound to the first and `^` to all of them joined by spaces, all on line 0; every other name keeps its value and line |
| MakefileParser.AutomaticStore | src/makefile-parser.cpp:204-217 | the copied store holds exactly `AutoVariables` |
| MakefileParser.ExpandEach | src/makefile-parser.cpp:219-230 | the expansion loop computes `ExpandRecipes`, and the first error stops it |
| MakefileParser.GetRecipes | src/makefile-parser.cpp:192-234 | the query gives `RecipesSpec` |
| MakefileParser.HasCircularDependency | src/makefile-parser.cpp:367-400 | the queue loop gives the search `Bfs` from the target alone |
| MakefileParser.BfsStep | src/makefile-parser.cpp:373-396 | a dequeue that finds nothing visited marks the front and queues its prerequisites |
| MakefileParser.BfsHit | src/makefile-parser.cpp:387-392 | a dequeue that finds a visited prerequisite answers "circular" |
| MakefileParser.WalkBlocksAcyclic | src/makefile-parser.cpp:367-400 | a walk from a queued name to a name already visited or queued rules out the answer "acyclic" |
| MakefileParser.AcyclicHasNoCycle | src/makefile-parser.cpp:367-400 | "acyclic" is sound: no cycle is reachable from the target |
| MakefileParser.FirstWithoutRule | src/makefile-parser.cpp:248-254 | the position of the first prerequisite without a rule |
| MakefileParser.GetPrereqs | src/makefile-parser.cpp:238-263 | each error and its exact condition: no rule for the target; the first prerequisite without a rule; a circular dependency; on success the stored list, with no cycle reachable |
| MakefileParser.Outdated | src/makefile-parser.cpp:275-311 | the loop returns whether the target is `Stale` |
| ParserProperties.NoComment | src/makefile-parser.cpp:51-54 | a line without `#` is kept whole |
| ParserProperties.CommentAt | src/makefile-parser.cpp:51-54 | a line is cut at its first `#` |
| ParserProperties.BlankLineExamples | tests/makefile-parser-tests.cpp:63-88 | a lone tab and a lone space are no-ops |
| ParserProperties.AssignmentLine | src/makefile-parser.cpp:60-64 | a first separator `=` makes an assignment |
| ParserProperties.RuleHeaderLine | src/makefile-parser.cpp:60-64 | a first separator `:` makes a rule header |
| ParserProperties.IndentedAssignmentExample | tests/makefile-parser-tests.cpp:63-88 | leading spaces do not hide an assignment |
| ParserProperties.TabbedAssignmentExample | src/makefile-parser.cpp:56-60 | a leading tab makes a recipe whatever follows |
| ParserProperties.RuleExample | src/makefile-parser.cpp:61-64 | "all: a = b" is a rule |
| ParserProperties.CommentedSeparatorExample | src/makefile-parser.cpp:50-64 | a separator inside a comment does not count |
| ParserProperties.NoSeparator | src/makefile-parser.cpp:177-183 | a line with neither separator is invalid |
| ParserProperties.MissingSeparatorExample | src/makefile-parser.cpp:177-183 | "just words" is invalid |
| ParserProperties.StepErrors | src/makefile-parser.cpp:68-183 | each line error and the line class that raises it: missing separator exactly for invalid lines, recipe-before-target exactly for a recipe with no rule in scope, and so on; a no-op line changes nothing |
| ParserProperties.AssignErrors | src/makefile-parser.cpp:109-122 | an assignment fails only with an expansion error or an empty name |
| ParserProperties.RuleErrors | src/makefile-parser.cpp:135-153 | a rule fails only with an expansion error or no target |
| ParserProperties.AssignEffect | src/makefile-parser.cpp:101-126 | an assignment ends the rule in scope, defines one trimmed non-empty name on this line, and changes nothing else |
| ParserProperties.AssignDefines | src/makefile-parser.cpp:101-126 | the new state is the old one with one name defined and no rule in scope |
| ParserProperties.AssignResult | src/makefile-parser.cpp:101-126 | the result is the old state with one trimmed, non-blank name updated |
| ParserProperties.AssignmentEffect | src/makefile-parser.cpp:101-126 | the same, for a whole line classified as an assignment |
| ParserProperties.TabAfterAssignment | src/makefile-parser.cpp:70-74 | a recipe line right after an assignment is an error, because the assignment ended the rule |
| ParserProperties.AddPrereqsMeaning | src/makefile-parser.cpp:155-171 | every listed target becomes a key; its list is its old names and the new ones, sorted without repeats; other targets are unchanged |
| ParserProperties.SortedUnion | src/makefile-parser.cpp:159-171 | the merged list is strictly sorted and holds the old and the new names |
| ParserProperties.RuleEffect | src/makefile-parser.cpp:127-176 | a rule header: its targets are non-empty names without spaces and become the rule in scope on this line; their lists are sorted and extended; the first rule's targets are recorded once; nothing else changes |
| ParserProperties.AddRecipesShape | src/makefile-parser.cpp:76-99 | pushing a recipe keeps the two recipe maps in step, with ascending line numbers |
| ParserProperties.StepWellFormed | src/makefile-parser.cpp:47-184 | every successful line keeps the parse state well formed |
| ParserProperties.ParsedModelShape | include/makefile-parser.h:38-49 | after parsing, the two recipe maps are in step, every target with recipes is a key of the prerequisite map, and every list is strictly sorted |
| ParserProperties.StepKeepsFirstTargets | src/makefile-parser.cpp:173-176 | a line never changes already recorded first targets |
| ParserProperties.FirstTargetsSettled | src/makefile-parser.cpp:173-176 | once recorded, the first rule's targets survive the rest of the file |
| ParserProperties.AddRecipesOnlyTargets | src/makefile-parser.cpp:76-99 | a recipe line adds recipes only to active targets |
| ParserProperties.OverrideDropsOthers | src/makefile-parser.cpp:80-95 | an override clears the recipes of every target, not only the overridden one |
| ParserProperties.NoOverrideAppends | src/makefile-parser.cpp:76-99 | without an override, each active target's recipes and lines are extended with this recipe and line, and other targets are unchanged |
| ParserProperties.OverrideExample | src/makefile-parser.cpp:80-98 | with `b a:` after `a:`, `b`'s new recipe is also dropped when `a`'s triggers the override |
| ParserProperties.StubStep | src/variables.cpp:11-15 | with the stub expander, every line other than a blank one is an error, and which error depends on its class |
| ParserProperties.StubParsesOnlyBlankLines | src/variables.cpp:11-15 | with the stub expander, a file parses exactly when every line is blank or a comment |
| ParserProperties.ExpandRecipesMeaning | src/makefile-parser.cpp:219-230 | expansion succeeds exactly when each recipe expands, one result per recipe and in order |
| ParserProperties.ExpandRecipesError | src/makefile-parser.cpp:222-228 | the first failing recipe gives the error, and all earlier ones expand |
| ParserProperties.RecipesMeaning | src/makefile-parser.cpp:192-234 | no recipes for a target without any; otherwise one expansion per recipe, in the automatic-variable store, with the stored lines |
| MakefileParser.Join | src/makefile-parser.cpp:209-216 | the joined list starts with the first prerequisite and is one space between each two longer than the prerequisites together |
| ParserProperties.JoinSplit | src/makefile-parser.cpp:209-216 | `$^` split at spaces gives the prerequisites back |
| QueryProperties.BfsMoreSteps | src/makefile-parser.cpp:373-397 | more search steps change nothing once an answer is reached |
| QueryProperties.BfsTerminates | src/makefile-parser.cpp:367-400 | the search from any target reaches an answer after finitely many dequeues, so the source's loop always ends |
| QueryProperties.GetPrereqsSettles | src/makefile-parser.cpp:238-263 | from some step bound on, the prerequisite query gives one same answer, and never `StepBoundReached` |
| QueryProperties.TestGraphAcyclic | tests/makefile-parser-tests.cpp:174-187 | the test graph has no circular dependency |
| QueryProperties.TestGraphWithLoop | tests/makefile-parser-tests.cpp:174-187 | with the test's loop added, the search finds it |
| QueryProperties.TestPrereqs | tests/makefile-parser-tests.cpp:48-60 | the test's prerequisites come back as stored; after `p2` loses its rule, `t` fails with a missing rule for `p2` |
| QueryProperties.TestRecipes | tests/makefile-parser-tests.cpp:24-47 | with no recipes `t` has none; with the test's recipes `$@ $< $^` give `t`, `p1` and "p1 p2 p2" on lines 1 to 5 |
| QueryProperties.DiamondHasNoCycle | src/makefile-parser.cpp:367-400 | the diamond `t -> a, b` and `b -> a` has no cycle |
| QueryProperties.DiamondReportedCircular | src/makefile-parser.cpp:387-392 | the search still reports the diamond as circular, and `getPrereqs` refuses it |
| QueryProperties.LaterIsStrictOrder | src/makefile-parser.cpp:301-303 | "later", seconds then nanoseconds, is a strict total order |
| QueryProperties.UpToDateMeaning | src/makefile-parser.cpp:275-311 | up to date exactly when every file can be read and no prerequisite is later; equal times count as up to date |
| QueryProperties.MissingTargetIsStale | tests/makefile-parser-tests.cpp:189-208 | a target without a file is out of date |
| QueryProperties.OutdatedExamples | tests/makefile-parser-tests.cpp:189-208 | newer target: up to date; older target: out of date; equal times: up to date |
| TaskGraph.CollectNames | src/task-graph.cpp:36-39 | the set holds exactly the tasks' names |
| TaskGraph.AddParents | src/task-graph.cpp:47-56 | each parent that is a task gets the task as a child, once per listing, and the count is the number of such listings |
| TaskGraph.Registered | src/task-graph.cpp:41-45 | the registered names are exactly the tasks' names |
| TaskGraph.FirstTaskRegistered | src/task-graph.cpp:41-45 | only the first task with a name is registered |
| TaskGraph.WaitingZero | src/task-graph.cpp:47-61 | the count is zero exactly when no listed parent is still waited for |
| TaskGraph.WaitingRemove | src/task-graph.cpp:134-139 | completing a task lowers a count by the number of times it is listed |
| TaskGraph.ChildrenCount | src/task-graph.cpp:47-55 | a task appears among a parent's children once for each time it lists that parent, and only if the parent is a task |
| TaskGraph.Setup | src/task-graph.cpp:36-65 | the registration loops give each registered task's count of present parents, with repeats, the children lists and the distinct ready tasks of count zero |
| TaskGraph.Register | src/task-graph.cpp:41-65 | one registration step is `RegisterSpec` |
| TaskGraph.ReleaseChildren | src/task-graph.cpp:134-139 | completing a task lowers each child's count by its number of listings, and children that reach zero join the back of the ready queue, once each |
| TaskGraph.ReleaseSpecMeaning | src/task-graph.cpp:134-139 | the release function has that effect |
| TaskGraph.Completion | src/task-graph.cpp:118-139 | handling the success of the task at the front of the queue keeps the run's invariant |
| TaskGraph.LaunchWave | src/task-graph.cpp:87-103 | every ready task is launched, in queue order, after those launched before |
| TaskGraph.HandleSuccess | src/task-graph.cpp:134-139 | handling one success releases its children as `ReleaseSpec` says and keeps the handling invariant, with the task now completed |
| TaskGraph.HandleWave | src/task-graph.cpp:115-148 | the handling loop gives `Handle`: results in name order, each success releasing its children, and the first failure stopping the handling; the run's invariant holds at the point where it stops |
| TaskGraph.Wave | src/task-graph.cpp:83-148 | one pass of the run loop: with nothing launched the run ends and gives the final check; after a failure it ends with the whole wave launched; otherwise the invariant holds again with less fuel |
| TaskGraph.RunReady | src/task-graph.cpp:83-168 | the run loop gives `RunFrom`, and its result means what `Run` states |
| TaskGraph.AllReleased | src/task-graph.cpp:161-168 | the final check finds no count above zero |
| TaskGraph.Finished | src/task-graph.cpp:106-108 | with nothing ready, all counts are zero exactly when every task was launched, and every task left waits for a parent not launched |
| TaskGraph.Run | src/task-graph.cpp:21-169 | the run gives `Schedule`: tasks launched once each, after their present parents, and only once those succeeded; every task with no parent among the tasks is launched; success exactly when nothing launched failed and all were launched; without a failure, a task not launched waits for one not launched |
| TaskGraph.AcyclicRunsAll | src/task-graph.cpp:161-168 | without a cycle, a run with no failure launches every task |
| TaskGraph.CycleBlocks | src/task-graph.cpp:161-168 | tasks waiting on each other in a cycle are never launched |
| TaskGraphExamples.EmptyRun | tests/task-graph-tests.cpp:15 | no tasks: success |
| TaskGraphExamples.FailingRun | tests/task-graph-tests.cpp:18-19 | one failing task: failure |
| TaskGraphExamples.MissingParentRun | tests/task-graph-tests.cpp:22-23 | `1 -> 2 -> 3` with no task `3`: `2`, then `1`, and success |
| TaskGraphExamples.CycleRun | tests/task-graph-tests.cpp:26-27 | `1` and `2` waiting on each other: nothing runs, and the run fails |
| TaskGraphExamples.TreeRun | tests/task-graph-tests.cpp:33-46 | the tree runs to success, `2` after `3a` and `3b`, and `1` after `3c` and `2` |
| TaskGraphExamples.SiblingsRun | src/task-graph.cpp:87-103 | two tasks ready together are both launched though one of them fails, and the run fails |
| TaskGraphExamples.OrderOfTwo | src/task-graph.cpp:134-139 | of two tasks, the one waiting for the other is launched second |
| MakefileBuilder.Command | src/makefile-builder.cpp:80-85 | a silenced recipe runs without its `@`; others run as written |
| MakefileBuilder.RecipesAt | src/makefile-builder.cpp:71-112 | one recipe's outcome: a failed fork, a failed wait or a non-zero exit ends the target with its message; otherwise the next recipe runs |
| MakefileBuilder.RunTask | src/makefile-builder.cpp:61-114 | the recipe-running function gives `TaskSpec` |
| MakefileBuilder.RunRecipes | src/makefile-builder.cpp:71-113 | the recipe loop gives `RecipesFrom` |
| MakefileBuilder.FirstFailure | src/makefile-builder.cpp:71-113 | the position of the first failing recipe |
| MakefileBuilder.RecipesMeaning | src/makefile-builder.cpp:71-113 | success exactly when no recipe fails; the commands run are those of the recipes forked, in order and without `@`; the recipes echoed are the unsilenced ones |
| MakefileBuilder.UpToDateRunsNothing | src/makefile-builder.cpp:63-69 | an up-to-date target runs nothing, succeeds, and only the requested target gets the notice |
| MakefileBuilder.OutdatedRunsRecipes | src/makefile-builder.cpp:70-113 | an out-of-date target succeeds exactly when no recipe fails, and runs the recipes it forked in order |
| MakefileBuilder.SilencedExample | src/makefile-builder.cpp:79-85 | `@echo one` runs without echo and `echo two` is echoed first |
| MakefileBuilder.TaskifyWithinSearch | src/makefile-builder.cpp:42-121 | the task walk needs no more steps than the circular-dependency search took |
| MakefileBuilder.TaskifyCompletes | src/makefile-builder.cpp:42-121 | the task walk is never cut off |
| MakefileBuilder.TaskifyTasks | src/makefile-builder.cpp:42-121 | one task per dequeue, each with the looked-up prerequisites and recipes; the target comes first; every parent is itself a task |
| MakefileBuilder.Taskify | src/makefile-builder.cpp:42-121 | the queue loop gives `TaskifySpec` and always finishes |
| MakefileBuilder.AttemptMeaning | src/makefile-builder.cpp:51-58 | a lookup error is the attempt's error; otherwise the tasks are scheduled, in the run of that target |
| MakefileBuilder.TaskOutcomes | src/makefile-builder.cpp:61-114 | a task whose target is up to date succeeds; an out-of-date one succeeds exactly when none of its recipes fails |
| MakefileBuilder.Outcomes | src/makefile-builder.cpp:61-114 | the outcome of each task the scheduler runs: success for an up-to-date target, otherwise success exactly when no recipe fails |
| MakefileBuilder.RunTarget | src/makefile-builder.cpp:125 | scheduling a target's tasks gives `TargetSucceeds` |
| MakefileBuilder.AttemptTarget | src/makefile-builder.cpp:40-128 | one target's walk and schedule give `Attempts`, with the file system and processes of that target's run |
| MakefileBuilder.ParsedAligned | src/makefile-parser.cpp:97-98 | every parsed recipe list has one line number per recipe |
| MakefileBuilder.Build | src/makefile-builder.cpp:24-130 | the driver gives `BuildSpec` |
| MakefileBuilder.BuildAll | src/makefile-builder.cpp:40-129 | the target loop gives `BuildTargets`, the run of the target at position `i` seeing the file system and processes of position `i` |
| MakefileBuilder.ParseErrorBuildsNothing | src/makefile-builder.cpp:28-33 | a file that does not parse builds nothing |
| MakefileBuilder.NoTargetsMeansFirstRule | src/makefile-builder.cpp:36-38 | no targets means the first rule's targets |
| MakefileBuilder.BuildStopsAtFirstFailure | src/makefile-builder.cpp:40-129 | targets are tried in order; every target before the last one scheduled succeeded; a completed build scheduled all of them; a lookup error names the first target not scheduled; a failure names the last one scheduled |

## Left out

- Reading the rule file is left out: the model takes its lines. The "no such file" error of the constructor is also left out.
- `stat` and `std::filesystem::exists` are replaced by a map. It gives each file's modification time, or no time when the file is missing or unreadable.
- `fork`, `execvp` and `waitpid` are replaced by the oracle `exec`. It gives each recipe's process outcome.
- A failure of `execvp` in the child is left out. The forked child then returns `false` from the recipe function in its own copy of the program. The model sees a process only through the outcome `exec` gives.
- A child ended by a signal counts as success, as in the source, because only a normal exit with a non-zero status fails a recipe. The model keeps that rule but does not say anything further about signals.
- Threads, the semaphore and `numJobs` are left out. The source launches the whole ready queue, then handles whichever tasks have finished, in name order. Which tasks have finished depends on timing. The model fixes one allowed schedule: it launches the whole ready queue as a wave, lets every task of the wave finish, and then handles the results in name order. Schedules in which a task's children are launched while others of its wave still run are not modelled.
- After a failure the source waits for the tasks still in flight. In the model these are the rest of the failing wave. They are launched, but their results are not handled.
- Message texts, warnings and the output streams are left out. Errors are datatype values, and printing is a list of events.
- `main.cpp`, the command line, is not part of this model.
- `Variables.Variables.ExpandVariables` is the source's stub and returns "". Every expansion in the parser is a parameter. `ParserProperties.StubExpand` is the stub as an expander. `Expansion.Expand` is an expander built from the store's tests.
- `MakefileParser.Bfs` has a step bound `bound`. It is a device of the model for writing the queue loop as a terminating function. The source's loop always ends: `QueryProperties.BfsTerminates` proves that some bound suffices from any target. `GetPrereqsSettles` proves that beyond such a bound the query's answer is fixed and never `StepBoundReached`. `TaskGraph.RunFrom` and `MakefileBuilder.TaskifyFrom` also have fuel. `TaskGraph.RunReady` starts with one wave per task. Its loop invariant bounds the tasks not yet handled by the fuel left, so the fuel never runs out. `TaskifyCompletes` proves that the task walk is never cut off when the search finished.
- `MakefileParser.GetRecipes` requires one line number per recipe. Parsing guarantees this (see `ParsedModelShape`). The source would throw `out_of_range` otherwise.
- Strings compare character by character. `std::string` compares bytes as `unsigned char`, which on UTF-8 text is the order of code points. The model's characters stand for code points, so the `Lexicographic` order is the source's.
- `hasLoop`, declared at include/makefile-parser.h:58, has no definition. Its tests are modelled with `HasCircularDependency`.
- Some tests use a stale API (`identifyLine`, `getVariables`). tests/makefile-parser-tests.cpp:86-87 expects "\tX = 1" with no rule in scope to be invalid. The code classifies it as a recipe and then raises the recipe-before-first-target error. The model follows the code (`TabbedAssignmentExample`, `StepErrors`).
