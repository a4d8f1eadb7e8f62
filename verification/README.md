# Verified models of selected components

Dafny models of seven parts of this repository, each proved against a
specification that does not mention its code. One file models one component; methods over
mutable fields stand for the code that works by changing things, functions and lemmas for what
it computes.

| file | component |
|---|---|
| `Graphs.dfy`, `DependencyAnalyzer.dfy` | blade's dependency analysis: memoised expansion with loop detection, link order, dependents, Kahn's sort |
| `LoadBuildFiles.dfy`, `BuildManager.dfy` | the worklist that loads BUILD files, and loading followed by analysis |
| `InclusionCheck.dfy` | the parser of gcc's `-H` dumps, against include forests |
| `ThreadPool.dfy` | the thread pool as a transition system, with notifications as steps of their own |
| `CList.dfy` | the intrusive list whose head's `prev` is the tail |
| `GrowableArray.dfy` | the growable array, slot by slot, with its amortised cost |
| `LogOrder.dfy`, `LogParser.dfy`, `LogMeaning.dfy`, `LogParserMgr.dfy` | the log tables: schema inference, sorted indexes, metrics, merging |
| `PathLib.dfy`, `Glob.dfy` | POSIX paths and glob selectors |
| `Maven.dfy` | the choice among conflicting maven versions |
| `Utilities.dfy` | shared result types, facts about sequences, and strings |

`dafny verify dfyconfig.toml` checks everything.

## What the models assume

- Dictionaries and sets are iterated in an arbitrary order, which the methods take as an argument
  or choose freely; the results hold for every order.
- `os.path.normpath`, `fnmatch`, `LooseVersion`, `strtol` and `strtof` are abstract functions. The
  order of versions is a strict weak order; real numbers stand for the floats read from cells.
- Files, directories, BUILD files and jars are values: lists of lines, finite trees without
  symbolic links, and a map from directories to the targets they register.
- The caller's duties are preconditions: nodes handed to a list operation are in that list (or in
  no list, for the pushes), slices handed to `safe_append` are whole, rows merged into a table are
  at least as wide as its first schema, and `deps` are duplicate-free
  (`target.py`, lines 478-481).

## Where code and documentation disagree

The models follow the code.

- `_topological_sort` says that dependents come before their dependencies; its result has
  dependencies first (`DependencyAnalyzer.RelatedTargets.TopologicalSort`).
- `_parse_inclusion_stacks` shows the build directory as part of the headers; the code strips it.
- A header is taken for a generated one if its name merely begins with the build directory's,
  with or without a slash after it (`InclusionCheck.GeneratedIff`; an input where a generated
  header is lost by it: `InclusionCheck.NamesakeEndsTracking`).

## What does not hold of the code

- Some properties that the code suggests have exceptions. Each is stated as an equivalence:
  growing an array by `resize` leaves raw slots below its size
  (`GrowableArrays.Array.Resize`); the integer sum is exact only if the total fits 32 bits
  (`LogParsers.Accumulate`; an input: `LogParsers.SumMayWrap`); the float comparator may not be
  given to `std::sort` when some cells are invalid and two valid ones differ
  (`LogOrder.SortableIff`; a file: `LogParsers.FloatColumnMayNotSort`); the version picked depends
  on the order of a set when several versions are named directly, or several incomparable ones are
  the greatest (`Maven.ResolutionIsOrderIndependentIff`; inputs: `Maven.OrderMatters`); the
  inclusion parser's assertion fails on a jump in the levels (`InclusionCheck.CrashesExactlyOnJump`;
  an input: `InclusionCheck.FirstLineMayJump`), which no printed forest has; a stack may stand for a
  path that ends outside the build directory (`InclusionCheck.StackEndsOutsideIff`; an input:
  `InclusionCheck.NamesakeEndsTracking`).
- Parsing a table in memory with rows, none of which fits the column types, reads the first entry
  of an empty index (`LogParsers.LogParser.ParseRows`; an input: `LogParsers.NoRowMayConform`).
  The merge of log files never does.
- `emplace` reserves one slot at a time, so n emplacements relocate n(n-1)/2 elements
  (`GrowableArrays.EmplacesAreQuadratic`).
- A first log file with repeated column names makes the whole merge fail
  (`LogParserMgrs.LogParserMgr.Parse`).

## Model

| member | source | states |
|---|---|---|
| `DependencyAnalyzer.ExpandMeaning` | CppProjects/thirdparty/blade-build/src/blade/dependency_analyzer.py:79-110 | for every closed graph: the plain expansion of a key fails if and only if the key or one it reaches lies on a cycle; otherwise it is duplicate-free, holds exactly the keys reachable by one or more edges, and lists x before y whenever x reaches y |
| `DependencyAnalyzer.ExpansionIsInVisitOrder` | CppProjects/thirdparty/blade-build/src/blade/dependency_analyzer.py:94-110 | for every acyclic closed graph the expansion lists the keys in the order of their last visits by a walk that goes down through the dependencies as they are declared |
| `DependencyAnalyzer.VisitOrderIsUnique` | CppProjects/thirdparty/blade-build/src/blade/dependency_analyzer.py:94-110 | no other duplicate-free list of the same keys is in that order: it fixes the expansion |
| `DependencyAnalyzer.DeclaredOrderSurvives` | CppProjects/thirdparty/blade-build/src/blade/dependency_analyzer.py:96-106 | of two dependencies of a target the one declared first stands first in its expansion, unless a dependency declared after it reaches it |
| `DependencyAnalyzer.DeclaredOrderIsFilledIn` | CppProjects/thirdparty/blade-build/src/blade/dependency_analyzer.py:55-110 | the same of the filled-in attribute |
| `DependencyAnalyzer.KeepLastIsSetOf` | CppProjects/thirdparty/blade-build/src/blade/dependency_analyzer.py:68-76 | keeping the last occurrence leaves the same keys, each once, over every input list |
| `DependencyAnalyzer.KeepLastKeepsLinkOrder` | CppProjects/thirdparty/blade-build/src/blade/dependency_analyzer.py:68-76 | if a list has every direct dependency of an item somewhere after it, so has the list of last occurrences: the static link order survives de-duplication |
| `DependencyAnalyzer.UniqueDeps` | CppProjects/thirdparty/blade-build/src/blade/dependency_analyzer.py:68-76 | the backward loop with its `deps` set computes the list of last occurrences |
| `DependencyAnalyzer.LinkOrderIsTransitive` | CppProjects/thirdparty/blade-build/src/blade/dependency_analyzer.py:79-110 | a duplicate-free link-ordered list of an acyclic graph puts every key before everything it reaches, not only before its direct dependencies |
| `DependencyAnalyzer.NoneMeansCycle` | CppProjects/thirdparty/blade-build/src/blade/dependency_analyzer.py:96-102 | if the keys on the current path all reach the one being expanded, a failing expansion yields a key, this one or below it, that reaches itself |
| `DependencyAnalyzer.PathDoesNotMatter` | CppProjects/thirdparty/blade-build/src/blade/dependency_analyzer.py:86-88 | an expansion that succeeds below one current path succeeds with the same result below every path that misses the key and the result: the reason why the memo may be reused wherever it was filled |
| `DependencyAnalyzer.RelatedTargets.ExpandTargetDeps` | CppProjects/thirdparty/blade-build/src/blade/dependency_analyzer.py:79-110 | the memoised, path-tracking recursion terminates, keeps every memo entry equal to the plain expansion, restores `root_targets`, never alters an entry, and reports only keys that reach themselves |
| `DependencyAnalyzer.RelatedTargets.ExpandDeps` | CppProjects/thirdparty/blade-build/src/blade/dependency_analyzer.py:55-65 | whatever order targets are visited in: a loop is reported if and only if the graph has a cycle, and without one every target ends with its plain expansion, in the order of last visits |
| `DependencyAnalyzer.ExpandedGraphIsReachability` | CppProjects/thirdparty/blade-build/src/blade/dependency_analyzer.py:55-110 | on acyclic graphs the filled-in attribute is exactly reachability, and its keys are targets |
| `DependencyAnalyzer.RelatedTargets.ExpandDependents` | CppProjects/thirdparty/blade-build/src/blade/dependency_analyzer.py:113-122 | both dependents attributes become the converse of `deps` and `expanded_deps` |
| `DependencyAnalyzer.BelowIsSmaller` | CppProjects/thirdparty/blade-build/src/blade/dependency_analyzer.py:79-110 | in an acyclic graph a dependency expands to strictly fewer keys than its dependent |
| `DependencyAnalyzer.BuildOrderMeansAcyclic` | CppProjects/thirdparty/blade-build/src/blade/dependency_analyzer.py:125-150 | a build order of all keys exists only for acyclic graphs |
| `DependencyAnalyzer.EmittedAllOrCycle` | CppProjects/thirdparty/blade-build/src/blade/dependency_analyzer.py:142-149 | when the queue of Kahn's algorithm runs empty on an acyclic graph every key has been emitted |
| `DependencyAnalyzer.Emit` | CppProjects/thirdparty/blade-build/src/blade/dependency_analyzer.py:142-148 | taking a key off the queue keeps the predecessor counts and the queue exact, and all its dependencies have been emitted |
| `DependencyAnalyzer.RelatedTargets.CountPredecessors` | CppProjects/thirdparty/blade-build/src/blade/dependency_analyzer.py:133-139 | with duplicate-free `deps` the initial counts are the numbers of pending dependencies, and the queue holds the zero ones |
| `DependencyAnalyzer.RelatedTargets.KnockDown` | CppProjects/thirdparty/blade-build/src/blade/dependency_analyzer.py:145-148 | knocking down the dependents restores exact counts and queue |
| `DependencyAnalyzer.RelatedTargets.TopologicalSort` | CppProjects/thirdparty/blade-build/src/blade/dependency_analyzer.py:125-150 | the final assertion holds if and only if the graph is acyclic; the result then is a permutation of all keys with every dependency to the left of its dependents (the docstring says the opposite order; the code is followed) |
| `DependencyAnalyzer.RelatedTargets.AnalyzeDeps` | CppProjects/thirdparty/blade-build/src/blade/dependency_analyzer.py:24-52 | the whole analysis succeeds if and only if the graph is acyclic and then leaves the expansions in the order of last visits, both converse relations and a build order; a failure is always a reported loop, never the assertion |
| `LoadBuildFiles.NeededIsLeast` | CppProjects/thirdparty/blade-build/src/blade/load_build_files.py:526-569 | the needed keys are contained in every set that holds the command targets and follows `deps` |
| `LoadBuildFiles.NeededStep` | CppProjects/thirdparty/blade-build/src/blade/load_build_files.py:565-567 | the needed keys follow `deps` |
| `LoadBuildFiles.BuildLoader.LoadBuildFile` | CppProjects/thirdparty/blade-build/src/blade/load_build_files.py:329-340 | no directory is executed twice; a later call returns the recorded outcome; a failure has been reported |
| `LoadBuildFiles.BuildLoader.Resolve` | CppProjects/thirdparty/blade-build/src/blade/load_build_files.py:542-564 | a cited target is found with its declared dependencies; a missing system library raises, and so does a skipped target that no loaded target names; any other target that cannot be loaded is reported: each exactly in its case |
| `LoadBuildFiles.SettleTarget` | CppProjects/thirdparty/blade-build/src/blade/load_build_files.py:564-567 | settling a target loses no command target or dependency and cites only needed keys |
| `LoadBuildFiles.BuildLoader.LoadRelatedBuildFiles` | CppProjects/thirdparty/blade-build/src/blade/load_build_files.py:526-569 | the worklist terminates; a run is free of errors if and only if every needed target can be loaded; its result then is exactly the least closed set, with the dependencies that the BUILD files declare; it can raise only for a command target in a skipped directory, since every other cited target has a dependent to blame |
| `BuildManager.LoopsAreDeclared` | CppProjects/thirdparty/blade-build/src/blade/build_manager.py:112-142 | a loop among the loaded targets is a loop in the BUILD files and conversely |
| `LoadBuildFiles.DatabaseIsRegistered` | CppProjects/thirdparty/blade-build/src/blade/load_build_files.py:510-523 | after the starting directories the database holds exactly the targets they register and the system libraries these name |
| `LoadBuildFiles.BuildLoader.LoadStartingBuildFiles` | CppProjects/thirdparty/blade-build/src/blade/load_build_files.py:510-519 | every starting directory is loaded once, and the run stays clean if and only if all of them have BUILD files |
| `BuildManager.LoadAndAnalyze` | CppProjects/thirdparty/blade-build/src/blade/main.py:76-87 | for a command line of directories, a filter, direct targets and exclusions: the load and analyze stages together succeed if and only if the directories have BUILD files, every needed target can be loaded and none depends on itself; then exactly the needed targets come out, dependencies first, an excluded one only if another target needs it: no lookup of the analysis can miss |
| `InclusionCheck.ParseInclusionStacks` | CppProjects/thirdparty/blade-build/src/blade/inclusion_check.py:100-140 | the line loop over any text computes the run of the line machine, crash or no crash |
| `InclusionCheck.StackParser.ReadLine` | CppProjects/thirdparty/blade-build/src/blade/inclusion_check.py:117-138 | one line changes level, skip level, stack and both lists as the machine says, or breaks, or crashes |
| `InclusionCheck.StackParser.PopTo` | CppProjects/thirdparty/blade-build/src/blade/inclusion_check.py:135-137 | the popping loop succeeds if and only if the stack is high enough |
| `InclusionCheck.StepOnPrinted` | CppProjects/thirdparty/blade-build/src/blade/inclusion_check.py:119-123 | a printed line is read back as its level and its header without the leading dot directory |
| `InclusionCheck.ConsumesForest` | CppProjects/thirdparty/blade-build/src/blade/inclusion_check.py:117-138 | from any state between two headers of a level, a printed forest is consumed without a crash and adds exactly its stacks and direct headers |
| `InclusionCheck.ParsesEveryForest` | CppProjects/thirdparty/blade-build/src/blade/inclusion_check.py:64-140 | for every include forest followed by lines without a leading dot: no crash, the direct headers are the non-absolute roots in order, and the stacks are those of the recursive definition |
| `InclusionCheck.StacksAreTheTrackedRootPaths` | CppProjects/thirdparty/blade-build/src/blade/inclusion_check.py:79-98 | the stacks are exactly the paths from a root to a generated header with no absolute and no generated header before it |
| `InclusionCheck.StackPositions` | CppProjects/thirdparty/blade-build/src/blade/inclusion_check.py:117-138 | the stacks in order: one for each position of the forest at which tracking stops, from left to right, and each shows the headers on the way down to it |
| `InclusionCheck.DirectHdrsAreRoots` | CppProjects/thirdparty/blade-build/src/blade/inclusion_check.py:127-128 | the direct headers in order: what is shown of each root that is not absolute, from left to right |
| `InclusionCheck.DocumentedDump` | CppProjects/thirdparty/blade-build/src/blade/inclusion_check.py:64-99 | the dump in the documentation, with its names freely chosen, read line by line as text, gives the direct headers and stacks listed there, without the build directory |
| `InclusionCheck.ShownOf` | CppProjects/thirdparty/blade-build/src/blade/inclusion_check.py:159-167 | a header whose normal form is the build directory, a slash and a rest is shown as the rest, any other one as its normal form |
| `InclusionCheck.PlainOf` | CppProjects/thirdparty/blade-build/src/blade/inclusion_check.py:153-155 | one leading dot directory is taken off |
| `InclusionCheck.AbsoluteIff` | CppProjects/thirdparty/blade-build/src/blade/inclusion_check.py:104-104 | a header is absolute if and only if its first character is a slash |
| `InclusionCheck.RStripOf` | CppProjects/thirdparty/blade-build/src/blade/inclusion_check.py:119-119 | all trailing white space is taken off a line and nothing else |
| `InclusionCheck.FindBlankOf` | CppProjects/thirdparty/blade-build/src/blade/inclusion_check.py:149-151 | the level is the position of the first blank |
| `InclusionCheck.CrashesWhereAssertionFails` | CppProjects/thirdparty/blade-build/src/blade/inclusion_check.py:129-138 | on any text no pop fails: a run crashes if and only if some reached line fails the assertion on its level |
| `InclusionCheck.CrashesExactlyOnJump` | CppProjects/thirdparty/blade-build/src/blade/inclusion_check.py:117-138 | told from the lines alone: a run over any text crashes if and only if some header line, after header lines only, is more than one level deeper than the line before it, and that line is followed and not beneath a header that is not |
| `InclusionCheck.FirstLineMayJump` | CppProjects/thirdparty/blade-build/src/blade/inclusion_check.py:132-132 | an input that crashes the parser: a dump that begins two levels deep |
| `InclusionCheck.StacksAreMeant` | CppProjects/thirdparty/blade-build/src/blade/inclusion_check.py:79-98 | if following headers reaches none that is only named like the build directory, the stacks are those that stop tracking at headers in the build directory only |
| `InclusionCheck.StackEndsOutsideIff` | CppProjects/thirdparty/blade-build/src/blade/inclusion_check.py:79-108 | some stack stands for a path that ends outside the build directory if and only if following headers reaches such a namesake |
| `InclusionCheck.GeneratedIff` | CppProjects/thirdparty/blade-build/src/blade/inclusion_check.py:106-106 | a header counts as generated if and only if it is in the build directory, is its name, or continues its name without a slash |
| `InclusionCheck.NamesakeEndsTracking` | CppProjects/thirdparty/blade-build/src/blade/inclusion_check.py:79-82 | an input where this matters: a plain header whose name begins with the build directory's ends the tracking, and the generated header below it is missing |
| `ThreadPools.StepConserves` | CppProjects/thirdparty/util/threadpool.cc:24-34 | every step keeps: accepted is started followed by queued, and the started tasks are the running and the finished ones as multisets |
| `ThreadPools.ReachableInv` | CppProjects/thirdparty/util/threadpool.cc:5-38 | conservation, wake-up coverage and orderly closing hold in every state of every run |
| `ThreadPools.AcceptedIsEnqueued` | CppProjects/thirdparty/util/threadpool.h:40-48 | in every run the accepted tasks are those that its events enqueue, in their order |
| `ThreadPools.EveryTaskIsAccountedFor` | CppProjects/thirdparty/util/threadpool.h:40-48 | in every run the enqueued tasks are the started ones followed by the queued ones, and the started ones are running or finished |
| `ThreadPools.AcceptsWhileOpen` | CppProjects/thirdparty/util/threadpool.h:40-48 | a task is accepted if and only if the pool has not been stopped, and then stands at the end of the queue |
| `ThreadPools.NoLostWakeup` | CppProjects/thirdparty/util/threadpool.h:40-50 | in every reachable state a queued task without an outstanding notification has a worker that is not waiting |
| `ThreadPools.InternalStepsRunOut` | CppProjects/thirdparty/util/threadpool.cc:21-36 | deliveries and worker steps strictly decrease a measure: left alone, the pool comes to rest |
| `ThreadPools.RestsOnlyWhenDrained` | CppProjects/thirdparty/util/threadpool.cc:21-36 | where it comes to rest, every accepted task has finished: none is stranded in the queue |
| `ThreadPools.StoppedStepsRunOut` | CppProjects/thirdparty/util/threadpool.cc:5-16 | once the flag is set every step but a rejected enqueue, spurious wake-ups included, brings the end nearer, and nothing is accepted |
| `ThreadPools.StoppedCanProceed` | CppProjects/thirdparty/util/threadpool.cc:5-16 | no stopped state is stuck before the last join |
| `ThreadPools.ShutdownIsBounded` | CppProjects/thirdparty/util/threadpool.cc:5-16 | every run from a stopped state has a bounded number of effective steps |
| `ThreadPools.InternalRunsAreBounded` | CppProjects/thirdparty/util/threadpool.cc:21-36 | every run of deliveries and worker steps is at most as long as the measure of its first state |
| `ThreadPools.ShutdownCanComplete` | CppProjects/thirdparty/util/threadpool.cc:5-16 | from every reachable stopped state some run without enqueues reaches the last join |
| `ThreadPools.JoinedMeansFinished` | CppProjects/thirdparty/util/threadpool.cc:11-15 | when the joins have returned all workers have left, and exactly the accepted tasks were started, in order of acceptance, and finished |
| `ThreadPools.JoinedRunFinishesAll` | CppProjects/thirdparty/util/threadpool.cc:5-38 | a run up to the last join has started exactly the tasks that it enqueued, in order, and finished each |
| `ThreadPools.RestingRunFinishesAll` | CppProjects/thirdparty/util/threadpool.cc:21-36 | a run after which the pool is at rest has finished exactly the tasks that it enqueued |
| `ThreadPools.ThreadPool.Enqueue` | CppProjects/thirdparty/util/threadpool.h:40-48 | the locked part of an enqueue puts the task at the end of the queue, or throws after the stop, as the system's steps say |
| `ThreadPools.ThreadPool.Check` | CppProjects/thirdparty/util/threadpool.cc:24-32 | one round of a worker under the lock takes the front task if there is one, and is the checking step of the system |
| `ThreadPools.ThreadPool.Stop` | CppProjects/thirdparty/util/threadpool.cc:6-9 | the first part of the destructor is the stopping step |
| `CLists.CList.PushFront` | CppProjects/thirdparty/coost/include/co/clist.h:23-34 | keeps the chain (head's `prev` is the tail, the tail's `next` is null, neighbours agree) and puts the node in front |
| `CLists.CList.PushBack` | CppProjects/thirdparty/coost/include/co/clist.h:37-48 | keeps the chain and puts the node at the end |
| `CLists.CList.Erase` | CppProjects/thirdparty/coost/include/co/clist.h:51-60 | keeps the chain and takes out exactly the node, be it the head, the tail, the only one or an inner one |
| `CLists.CList.MoveFront` | CppProjects/thirdparty/coost/include/co/clist.h:63-74 | keeps the chain and equals erasing and pushing in front, in every aliasing case |
| `CLists.CList.MoveBack` | CppProjects/thirdparty/coost/include/co/clist.h:77-92 | keeps the chain and equals erasing and pushing at the end, in every aliasing case |
| `CLists.CList.Back` | CppProjects/thirdparty/coost/include/co/clist.h:17-18 | the tail is reached through the head |
| `CLists.CList.ChainIs` | CppProjects/thirdparty/coost/include/co/clist.h:5-20 | what every operation keeps, spelled out: head's `prev` is the last node, the last `next` is null, neighbours agree |
| `GrowableArrays.AppendsAreAmortised` | CppProjects/thirdparty/coost/include/co/array.h:152-159 | n single appends to an empty array relocate fewer than 3n elements and leave a capacity of at most 3n/2 |
| `GrowableArrays.BuildByAppends` | CppProjects/thirdparty/coost/include/co/array.h:152-159 | an array built by appending n >= 1 elements to an empty one holds them, has relocated fewer than 3n and has a capacity of at most 3n/2 |
| `GrowableArrays.EmplacesAreQuadratic` | CppProjects/thirdparty/coost/include/co/array.h:226-231 | n emplacements into an empty array relocate n(n-1)/2 elements: the cost of this operation is not amortised |
| `GrowableArrays.Array.SlotsAre` | CppProjects/thirdparty/coost/include/co/array.h:98-259 | what every operation keeps, spelled out: exactly the slots below size are constructed, and they are the contents |
| `GrowableArrays.RemoveSwapTakesOne` | CppProjects/thirdparty/coost/include/co/array.h:248-259 | swapping in the last element removes exactly the nth and moves no other |
| `GrowableArrays.Array.Append` | CppProjects/thirdparty/coost/include/co/array.h:152-168 | appends one element; a full array grows by half its capacity and one; an array built by appends has the capacity and relocations of the cost function |
| `GrowableArrays.Array.AppendEach` | CppProjects/thirdparty/coost/include/co/array.h:177-180 | appends a range one by one, along the same cost function |
| `GrowableArrays.Array.AppendFill` | CppProjects/thirdparty/coost/include/co/array.h:170-175 | appends n copies |
| `GrowableArrays.Array.AppendFrom` | CppProjects/thirdparty/coost/include/co/array.h:183-187 | appends foreign elements |
| `GrowableArrays.Array.AppendArray` | CppProjects/thirdparty/coost/include/co/array.h:190-198 | appends an array, which may be this one |
| `GrowableArrays.Array.AppendMoved` | CppProjects/thirdparty/coost/include/co/array.h:201-211 | appends a moved array: its elements arrive, and stay behind moved-from but constructed; this array itself is copied |
| `GrowableArrays.Array.SafeAppend` | CppProjects/thirdparty/coost/include/co/array.h:214-224 | appends a foreign range or a slice of the array itself across a reallocation |
| `GrowableArrays.Array.Emplace` | CppProjects/thirdparty/coost/include/co/array.h:228-231 | appends one element with the capacity and relocations of its own cost function |
| `GrowableArrays.Array.PopBack` | CppProjects/thirdparty/coost/include/co/array.h:237-241 | returns and removes the last element, destroying its slot once |
| `GrowableArrays.Array.Remove` | CppProjects/thirdparty/coost/include/co/array.h:249-259 | removes the nth element by swapping in the last; no slot is constructed twice or left undestroyed |
| `GrowableArrays.Array.Resize` | CppProjects/thirdparty/coost/include/co/array.h:127-136 | keeps the slots below size constructed if and only if it does not grow; growing leaves the new slots raw |
| `GrowableArrays.Array.Reset` | CppProjects/thirdparty/coost/include/co/array.h:139-145 | leaves the array empty without a block, with every slot of the old block destroyed |
| `GrowableArrays.Array.Assign` | CppProjects/thirdparty/coost/include/co/array.h:98-104 | becomes a copy; the source is untouched and shares no block; the old elements are destroyed |
| `GrowableArrays.Array.AssignMoved` | CppProjects/thirdparty/coost/include/co/array.h:106-112 | takes over the contents; the source is left empty; the old elements are destroyed |
| `GrowableArrays.Array.Swap` | CppProjects/thirdparty/coost/include/co/array.h:261-265 | exchanges the contents of two arrays |
| `GrowableArrays.Array.Reserve` | CppProjects/thirdparty/coost/include/co/array.h:120-125 | grows the block to exactly the requested size if it is too small, keeping the contents |
| `LogOrder.SortableIff` | CppProjects/LogParser/log_parser/float_str.cc:83-88 | what std::sort demands of its comparator holds for every column type but floats on all cells, and for floats if and only if all cells are valid or all valid ones are equal |
| `LogOrder.ExponentsAreNotSortable` | CppProjects/LogParser/log_parser/float_str.cc:10-88 | an input where this fails: a number with an exponent is a float cell but not valid; beside two different valid cells the comparator fails the demand |
| `Strings.LexLessIsTotal` | CppProjects/LogParser/log_parser/log_parser.cc:301-303 | the order of text columns never puts two cells before each other, and tells all different cells apart |
| `Strings.LexLessMeans` | CppProjects/LogParser/log_parser/log_parser.cc:301-303 | a text comes before another if and only if it is a proper prefix of it or has the smaller character where they first differ |
| `LogMeaning.IndexGoesByIntegers` | CppProjects/LogParser/log_parser/log_parser.cc:283-291 | along the index of an integer column the numbers never decrease |
| `LogMeaning.IndexGoesByFloats` | CppProjects/LogParser/log_parser/log_parser.cc:306-316 | along the index of a float column of valid cells the numbers never decrease |
| `LogMeaning.IndexGoesByText` | CppProjects/LogParser/log_parser/log_parser.cc:293-305 | along any other index a cell is equal to each later one or smaller as text |
| `LogMeaning.DataTypeOf` | CppProjects/LogParser/log_parser/log_parser.cc:371-398 | the conditions, in numbers and characters, under which a cell has each type |
| `LogMeaning.ValidFloatOf` | CppProjects/LogParser/log_parser/float_str.cc:31-58 | a float cell is valid without a dot if it also reads as an integer, with one dot if both sides do, never with two |
| `LogOrder.SortIndexes` | CppProjects/LogParser/log_parser/log_parser.cc:270-319 | the index vector becomes a permutation, sorted if the comparator may be given to std::sort |
| `LogOrder.OrderStatistic` | CppProjects/LogParser/log_parser/log_parser.cc:328-330 | position k of a sorted index holds a row with at most k rows before it and at most n-1-k after it |
| `LogParsers.ReadOneMore` | CppProjects/LogParser/log_parser/log_parser.cc:194-255 | reading one more line takes the table of the lines so far to the table of all of them: names from the first line with text, types from the first full row after it, later rows filtered by width and type |
| `LogMeaning.ReadingInvertsWriting` | CppProjects/LogParser/log_parser/log_parser.cc:173-268 | the lines of a table, names first and cells joined by tabs, are read back as that table |
| `LogMeaning.IgnoredLine` | CppProjects/LogParser/log_parser/log_parser.cc:195-251 | empty lines, lines of another width and lines with a cell of another type change nothing, wherever they stand |
| `LogMeaning.CellsOfLine` | CppProjects/LogParser/log_parser/log_parser.cc:363-369 | cells joined by tabs are cut apart again, with a tab at the end of the line or not |
| `LogMeaning.IndexIsLastPosition` | CppProjects/LogParser/log_parser/log_parser.cc:224-225 | a column name stands for its last position |
| `LogParsers.LogParser.TakeLine` | CppProjects/LogParser/log_parser/log_parser.cc:194-255 | one round of the reading loop does that on the parser's fields |
| `LogParsers.FileTableIsUniform` | CppProjects/LogParser/log_parser/log_parser.cc:173-268 | a file that parses has at least one row, and all its rows are full and of the inferred types |
| `LogParsers.LogParser.ParseRawContentFromFile` | CppProjects/LogParser/log_parser/log_parser.cc:173-268 | succeeds if and only if the file opens and has a table, and then holds exactly that table |
| `LogParsers.ConformingRows` | CppProjects/LogParser/log_parser/log_parser.cc:145-171 | filtering keeps exactly the rows of the column types, all of them if all conform |
| `LogParsers.LogParser.ParseRawContent` | CppProjects/LogParser/log_parser/log_parser.cc:145-171 | the nested loops compute the filtering; an empty table is refused |
| `LogParsers.LogParser.SortContent` | CppProjects/LogParser/log_parser/log_parser.cc:270-322 | every column gets an index vector of the table |
| `LogParsers.Accumulate` | CppProjects/LogParser/log_parser/log_parser.cc:336-343 | the sum accumulated in 32 bits is the true total wrapped to 32 bits, and it is exact if and only if the total fits, whatever the partial sums do, as long as no single 64-bit addition overflows |
| `LogParsers.FloatColumnMayNotSort` | CppProjects/LogParser/log_parser/log_parser.cc:173-268 | such cells survive the inference of types: a file of them parses, keeps all its rows as one float column, and that column cannot be sorted |
| `LogParsers.SumMayWrap` | CppProjects/LogParser/log_parser/log_parser.cc:336-343 | an input where the sum is wrong: a file of two integers of ten digits is one integer column, no addition overflows 64 bits, and the stored sum of 3,000,000,000 is negative |
| `LogParsers.LogParser.StoreMetrics` | CppProjects/LogParser/log_parser/log_parser.cc:324-361 | every column gets the cells at the ends and in the middle of its index; an integer column the wrapped sum and its mean, a float column its sum and mean, over the reals |
| `LogParsers.MetricsAreOrderStatistics` | CppProjects/LogParser/log_parser/log_parser.cc:328-333 | the stored minimum, maximum and median are the order statistics of rank 0, n-1 and floor(n/2) of the column |
| `LogMeaning.IntegersByName` | CppProjects/LogParser/log_parser/log_parser.cc:91-104 | asked for by name, an integer column gives its least and greatest number, a cell with at most half of the rows on either side, the total narrowed to 32 bits, and that sum divided by the number of rows |
| `LogMeaning.FloatsByName` | CppProjects/LogParser/log_parser/log_parser.cc:91-104 | the same for a float column of valid cells, over the reals |
| `LogMeaning.OtherNamesAreUnknown` | CppProjects/LogParser/log_parser/log_parser.cc:90-94 | there are five names of metrics |
| `LogParsers.LogParser.ParseFile` | CppProjects/LogParser/log_parser/log_parser.cc:53-76 | a file parses if and only if it has a table; the parser then is indexed and holds it |
| `LogParsers.LogParser.ParseRows` | CppProjects/LogParser/log_parser/log_parser.cc:53-76 | a table given in memory is refused if and only if it has no rows; if none of its rows fits the column types, an empty index is read; otherwise what is indexed are the rows that fit |
| `LogParsers.NoRowMayConform` | CppProjects/LogParser/log_parser/log_parser.cc:151-168 | a table with a row of which no row is left after filtering |
| `LogParsers.LogParser.FromRows` | CppProjects/LogParser/log_parser/log_parser.cc:33-47 | a table whose column data do not fit together is emptied |
| `LogParsers.LogParser.Sort` | CppProjects/LogParser/log_parser/log_parser.cc:109-143 | fails exactly for unknown columns; otherwise shows the first min(limit, n) rows of the column's index or of its reverse, a negative limit meaning all |
| `LogParsers.FirstRowsComeFirst` | CppProjects/LogParser/log_parser/log_parser.cc:127-138 | the rows shown are in the column's order or its reverse, each once, and no row left out belongs before one shown |
| `LogMeaning.ShownByIntegers` | CppProjects/LogParser/log_parser/log_parser.cc:127-138 | rows shown by an integer column ascend or descend by its numbers, and none that is left out belongs before them |
| `LogMeaning.ShownByFloats` | CppProjects/LogParser/log_parser/log_parser.cc:127-138 | the same for a float column of valid cells |
| `LogParsers.LogParser.Calculate` | CppProjects/LogParser/log_parser/log_parser.cc:78-107 | fails exactly for an unknown column, an unknown metric, or a sum or mean of a column that is not of numbers; otherwise returns the stored metric |
| `LogParserMgrs.LogParserMgr.Parse` | CppProjects/LogParser/log_parser/log_parser_mgr.cc:46-109 | succeeds if and only if some file parses and the first that does has distinct column names; the files that failed are dropped from all lists; the merged parser is indexed and holds the rows of all files that fit the first schema |
| `LogParserMgrs.LogParserMgr.ParseFiles` | CppProjects/LogParser/log_parser/log_parser_mgr.cc:54-67 | every file gets a parser of its own and a result saying whether it holds a table |
| `LogParserMgrs.LogParserMgr.Collect` | CppProjects/LogParser/log_parser/log_parser_mgr.cc:69-86 | keeps exactly the files that parsed, with their parsers by position and by name, and gathers their rows in order |
| `LogParserMgrs.LogParserMgr.Merge` | CppProjects/LogParser/log_parser/log_parser_mgr.cc:97-104 | the merge fails if and only if the first schema repeats a column name |
| `LogParserMgrs.MergedIsUnion` | CppProjects/LogParser/log_parser/log_parser_mgr.cc:65-104 | all rows of the first file are kept, so the merged table is never empty; if all files infer the same types it holds exactly the rows of all files, none lost or repeated |
| `LogParserMgrs.ExtremesOfPart` | CppProjects/LogParser/log_parser/log_parser_mgr.cc:97-104 | for a table and some of its rows: the minimum of a sortable column is not above that of the part, and not below it if its row is in the part; likewise for the maximum |
| `LogParserMgrs.MergedExtremesBound` | CppProjects/LogParser/log_parser/log_parser_mgr.cc:77-104 | if all files infer the same types, this holds of the merged rows and every file that parses |
| `LogParserMgrs.LogParserMgr.MergedExtremes` | CppProjects/LogParser/log_parser/log_parser_mgr.cc:97-104 | after a successful parse of such files the stored merged minimum of every sortable column is not above that of any file and not below that of some file; likewise for the maximum |
| `LogParserMgrs.RowsComeFromFiles` | CppProjects/LogParser/log_parser/log_parser_mgr.cc:77-79 | a gathered row is a row of one of the files that parsed, and each such row is gathered |
| `LogParserMgrs.FilesAddUp` | CppProjects/LogParser/log_parser/log_parser_mgr.cc:69-83 | what is kept and gathered of two lists of files, one after the other, is what is kept and gathered of each |
| `LogParserMgrs.FirstTableIsFirst` | CppProjects/LogParser/log_parser/log_parser_mgr.cc:97-100 | the schema is that of the first file that parses |
| `PathLib.ParsePartsBackwards` | CppProjects/thirdparty/blade-build/src/blade/pathlib.py:78-112 | the backward loop, stopping at the first rooted argument, computes the left-to-right parse |
| `PathLib.ParsedIsCanonical` | CppProjects/thirdparty/blade-build/src/blade/pathlib.py:78-112 | parsing any arguments yields a root of zero, one or two slashes and proper names after it |
| `PathLib.ParseConcat` | CppProjects/thirdparty/blade-build/src/blade/pathlib.py:114-129 | parsing a concatenated argument list equals joining the two parses, for all lists |
| `PathLib.RootOfSlashes` | CppProjects/thirdparty/blade-build/src/blade/pathlib.py:262-275 | two leading slashes are a root of their own; one, or three and more, are the root |
| `PathLib.ParseOfText` | CppProjects/thirdparty/blade-build/src/blade/pathlib.py:86-112 | one argument is parsed into its root and the components of what follows |
| `PathLib.NamesOf` | CppProjects/thirdparty/blade-build/src/blade/pathlib.py:92-98 | empty components and single dots are dropped, all others are kept |
| `PathLib.LastArgument` | CppProjects/thirdparty/blade-build/src/blade/pathlib.py:86-112 | a rooted argument makes the ones before it void, any other one is appended |
| `PathLib.ArgumentsAreParsed` | CppProjects/thirdparty/blade-build/src/blade/pathlib.py:606-619 | text is parsed as it is given, and lists of arguments by joining |
| `PathLib.ParseOfStr` | CppProjects/thirdparty/blade-build/src/blade/pathlib.py:661-669 | parsing the printed form of a path gives the path back, the two-slash root (section 4.11 of the POSIX.1-2004 Base Definitions) included |
| `PathLib.ParseOfParts` | CppProjects/thirdparty/blade-build/src/blade/pathlib.py:606-619 | passing a path's parts as arguments gives the path back |
| `PathLib.RelativeToInvertsJoin` | CppProjects/thirdparty/blade-build/src/blade/pathlib.py:813-843 | `relative_to` returns q if and only if the path is the given one joined with the relative path q: both round trips, and the errors exactly elsewhere |
| `Glob.SelectFrom` | CppProjects/thirdparty/blade-build/src/blade/pathlib.py:478-543 | the generators, their `yielded` set included, produce the sequence of the recursive definition |
| `Glob.IterateDirectories` | CppProjects/thirdparty/blade-build/src/blade/pathlib.py:522-528 | the walk lists each directory at or below the start, parents first |
| `Glob.DirectoriesComeParentsFirst` | CppProjects/thirdparty/blade-build/src/blade/pathlib.py:522-528 | the walk comes to a directory before those below it, and to each once |
| `Glob.KeepFirstOrder` | CppProjects/thirdparty/blade-build/src/blade/pathlib.py:534-541 | what has been yielded before is left out at its later occurrences |
| `Glob.GlobFrom` | CppProjects/thirdparty/blade-build/src/blade/pathlib.py:1001-1011 | a pattern is parsed as a path; rooted, empty and badly starred ones are refused |
| `Glob.SelectYieldsTheMatches` | CppProjects/thirdparty/blade-build/src/blade/pathlib.py:457-543 | over any finite tree a selector chain yields a path if and only if its components match the chain and it exists |
| `Glob.SelectYieldsOnce` | CppProjects/thirdparty/blade-build/src/blade/pathlib.py:530-543 | no path is yielded twice |
| `Glob.SelectorMatchesPattern` | CppProjects/thirdparty/blade-build/src/blade/pathlib.py:439-450 | the chain built from a pattern matches what the pattern's components match, the double star any number of entry names |
| `Glob.WildcardOf` | CppProjects/thirdparty/blade-build/src/blade/pathlib.py:65-68 | a component with a star, a question mark or a bracket matches the entry names that `fnmatch` accepts, any other one only itself |
| `Glob.MatchedByComponents` | CppProjects/thirdparty/blade-build/src/blade/pathlib.py:478-514 | a pattern without a double star matches component by component |
| `Glob.DoubleStarMatches` | CppProjects/thirdparty/blade-build/src/blade/pathlib.py:517-543 | a double star stands for any number of entry names, none included |
| `Glob.SelectorIsMadeIff` | CppProjects/thirdparty/blade-build/src/blade/pathlib.py:439-450 | a chain is built if and only if the pattern has a component and two stars in a row are always a component of their own |
| `Glob.SelectorOfText` | CppProjects/thirdparty/blade-build/src/blade/pathlib.py:1005-1009 | a pattern that begins with a slash is refused; any other one goes by its components |
| `Glob.GlobInDirectory` | CppProjects/thirdparty/blade-build/src/blade/pathlib.py:505-514 | one component with a wildcard yields exactly the children whose names match |
| `Glob.ResolveUp` | CppProjects/thirdparty/blade-build/src/blade/pathlib.py:490-496 | a step up from a directory leads back, and from the root to the root |
| `Glob.GlobYieldsThePattern` | CppProjects/thirdparty/blade-build/src/blade/pathlib.py:1001-1011 | a glob yields, each once, exactly the existing paths whose components match the pattern; only directories if it ends in a double star |
| `Maven.PickVersion` | CppProjects/thirdparty/blade-build/src/blade/java_targets.py:313-328 | the loop over the versions computes the scan: the first directly named version ends it, otherwise the greatest so far is kept |
| `Maven.PickIsCandidate` | CppProjects/thirdparty/blade-build/src/blade/java_targets.py:280-286 | in whatever order the versions come, the one picked is directly named if any is, and otherwise one that no other exceeds |
| `Maven.OrderIndependentIff` | CppProjects/thirdparty/blade-build/src/blade/java_targets.py:294-328 | the pick is the same for all orders if and only if there is a single candidate |
| `Maven.SingleCandidate` | CppProjects/thirdparty/blade-build/src/blade/java_targets.py:280-286 | at most one directly named version and an order that tells all versions apart leave a single candidate |
| `Maven.EveryCandidateIsPickedOnce` | CppProjects/thirdparty/blade-build/src/blade/java_targets.py:313-328 | for every candidate there is an order of the versions in which it is the one picked |
| `Maven.OrderMatters` | CppProjects/thirdparty/blade-build/src/blade/java_targets.py:313-320 | inputs where the order matters: two versions named directly, and two that compare equal |
| `Maven.ResolutionIsOrderIndependentIff` | CppProjects/thirdparty/blade-build/src/blade/java_targets.py:287-328 | which jars of an artifact are kept is the same for all orders of the jars if and only if the artifact has a single candidate version |
| `Maven.ResultIsOrderIndependent` | CppProjects/thirdparty/blade-build/src/blade/java_targets.py:287-328 | if every artifact has a single candidate, the list returned is the same for all orders of the jars |
| `Maven.VersionsAreOfJars` | CppProjects/thirdparty/blade-build/src/blade/java_targets.py:287-304 | the versions filed for an artifact are those of its accepted jars, each once |
| `Maven.CoordinatesOfJar` | CppProjects/thirdparty/blade-build/src/blade/java_targets.py:298-301 | a jar in the repository has the group, name and version that its directories say |
| `Maven.NoCoordinates` | CppProjects/thirdparty/blade-build/src/blade/java_targets.py:295-300 | a path outside the repository or with fewer than four parts in it is passed over |
| `Maven.OneOfTwoVersions` | CppProjects/thirdparty/blade-build/src/blade/java_targets.py:309-328 | of two versions on disk, met in either order, the one named directly is kept, or else the greater one |
| `Maven.DetectMavenConflictedDeps` | CppProjects/thirdparty/blade-build/src/blade/java_targets.py:287-328 | the result is in strictly ascending order, and a jar is in it if and only if it is accepted and of the version picked for its artifact |
| `Strings.AscendingIsUnique` | CppProjects/thirdparty/blade-build/src/blade/java_targets.py:328-328 | given elements have one strictly ascending list |
| `Maven.EveryArtifactIsKept` | CppProjects/thirdparty/blade-build/src/blade/java_targets.py:287-328 | every artifact with an accepted jar is kept, with all the jars of a single candidate version and no others |

## Left out

- DependencyAnalyzer.RelatedTargets.AnalyzeDeps: the hook `_expand_deps_generation` and `check_visibility`, which change no attribute modelled here; targets are rows of one table with a map for each attribute, so sharing of one target object under two keys is not modelled.
- LoadBuildFiles.BuildLoader.LoadRelatedBuildFiles: a fatal error while a BUILD file is executed, which ends the program; which target is blamed in a message; the walk that turns patterns into directories.
- BuildManager.LoadAndAnalyze: a system library that the command line names directly and no target of the starting directories depends on; whether its lookup raises then depends on the order in which a set is emptied.
- LogOrder.SortableIff: a cell of so many digits that it reads as infinity.
- InclusionCheck.ParsesEveryForest: `rstrip` takes off ASCII white space only; the search for the libraries of the headers found is not modelled.
- InclusionCheck.CrashesExactlyOnJump: a level is the position of the first blank, as in the code, so dots and other characters before it count alike.
- ThreadPools.ThreadPool.Enqueue: a critical section is one step, so waiting for the lock is not modelled; the future and a task that throws are not either; pools without threads are excluded where a task has to be run.
- CLists.CList.Clear: forgets the nodes without touching them, as the code does; nodes keep stale links.
- GrowableArrays.Array.Append: the value of a moved-from element is unspecified; allocation never fails; an argument that is an element of the array being reallocated is excluded, except by `safe_append` and self-append.
- LogOrder.SortIndexes: an insertion sort stands for `std::sort`, which is only required to sort; where the comparator may not be given to it the model only promises a permutation.
- LogParsers.LogParser.StoreMetrics: sums and means of floats are those of exact real arithmetic, so rounding, NaN, infinities and decimal forms are not modelled; a column in which a 64-bit addition overflows is excluded, since that is undefined behaviour.
- LogParserMgrs.LogParserMgr.ParseFiles: files are parsed one after the other; the jobs share no state. A run on a manager that has parsed before is excluded.
- Glob.SelectFrom: permissions, symbolic links, case folding and the listing cache.
- PathLib.ParsePartsBackwards: drives and the Windows flavour.
- Networking, camera, crawler, plotting and container projects, ninja generation, tool chains and configuration: input, output and string plumbing.
- Tags, visibility, architecture tables and progress bars: their properties are easy.
