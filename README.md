# ctrlkit in Dafny

This project models the two self-contained parts of ctrlkit, a library and
code generator for Kubernetes controllers, and proves properties of them.

**The reconcile-action algebra** (package `ctrlkit`) is covered by the
modules `Signal`, `Actions` and `Runners`.
- A reconcile action is a tree. Its leaves are `WrapAction` and `Nop`, its
  groups are `Sequential`, `Join`, `JoinOrdered` and `JoinInParallel`, and
  `Parallel` and `Timeout` wrap a single action.
- Running an action yields a `ctrl.Result` (requeue flag and requeue
  delay) and an error. The error is nil, the `ErrExit` sentinel, an opaque
  error or a multierror aggregate.
- What the leaf functions return is a parameter of the semantics (`Impl`).
  The semantics also records which leaf functions were called, in call
  order.
- `Signal` models the helpers of loop.go and exit.go and the merge rule
  `joinResultAndErr`. It proves the merge's algebra: the requeue flag is
  an OR, the delay is the soonest positive one, and the aggregate collects
  the errors in order. The merge is also commutative and associative.
- `Actions` gives the semantics of every constructor. It proves that
  `Sequential` short-circuits and that `Join` runs all of its children.
  Join's one-time shuffle does not change the merged result. Nested joins
  flatten. An `Exit` merged through a join survives `IgnoreExit`.
- `Runners` holds the loops of `runSequentialActions`, `runJoinActions`,
  `runJoinActionsInParallel` and `describeGroup`, as written. Each is
  proved to compute the fold the semantics uses.

**The `.cm` declaration language and the generator's helpers** (package
`gen`) are covered by the modules `GoStrings`, `GenModel`, `GenTokens`,
`GenParser`, `GenParseDoc` and `GenBuilder`.
- `GoStrings` models the Go standard-library string functions the
  package relies on: `strings.Split`, `Join`, `SplitN`, `Index`,
  `TrimSpace`, `bufio.ScanWords` and `sort.Strings`.
- `GenModel` holds the document tables.
  - Each entity is a datatype value with insert-if-absent operations.
  - The entities the parser updates in place (`ControllerManagerDocument`,
    `StateDeclaration`, `ControllerManagerDeclaration`) are also classes.
  - Each class method is proved to perform the value operation.
- `GenTokens` holds the token parsers for group-versions, kinds, `bind`,
  `alias` and `decl`, with their round trips.
- `GenParser` gives the line-by-line semantics of `ParseDoc` as a function
  (`Feed`, `ParseLines`, `ParseDocument`). Its main results:
  - it keeps an invariant under which every reference in the document
    resolves;
  - the document only grows;
  - a declaration is stored only at its closing bracket;
  - the first error is final.
- `GenParseDoc` is `ParseDoc` as written. It is an imperative loop over a
  `DocParser` object that updates the document, the open declaration and
  the open state in place. It is proved equal to `ParseDocument`.
- `GenBuilder` holds the string helpers of builder.go:
  - package aliases and first-letter case;
  - the `${target.X}` expression renderer;
  - sorted map and selector rendering, indentation and the ownership check;
  - the type of an action parameter and the choice of state getter.

The Go source panics in several places (a slice out of range, an explicit
`panic`). Where a panic depends on data, the model returns `Panic` or
`SlicePanic` as a value. The empty action lists, which the source rejects
as programming errors, are preconditions instead.

The package test at ctrlkit/pkg/ctrlkit/join_test.go:16 expects
`JoinInParallel(Nop, Nop)` to be described as `"ParallelJoin(Nop, Nop)"`.
The code writes `"JoinInParallel(Nop, Nop)"`. The model follows the code,
and `Actions.JoinDescriptions` states the difference.

## Model

| member | source | states |
|---|---|---|
| Signal.NeedsRequeue | ctrlkit/pkg/ctrlkit/loop.go:9-12 | an outcome needs a requeue iff its error is non-nil, its requeue flag is set or its delay is positive |
| Signal.RequeueImmediately | ctrlkit/pkg/ctrlkit/loop.go:15-17 | requeue is set and the error is nil, so the outcome needs a requeue |
| Signal.RequeueAfter | ctrlkit/pkg/ctrlkit/loop.go:20-22 | the delay is the one given, the error is nil, and a requeue is needed iff the delay is positive |
| Signal.RequeueIfError | ctrlkit/pkg/ctrlkit/loop.go:25-27 | the empty result with the error given; a requeue is needed iff the error is non-nil |
| Signal.NoRequeue | ctrlkit/pkg/ctrlkit/loop.go:30-32 | the empty result and nil, which never needs a requeue |
| Signal.Exit | ctrlkit/pkg/ctrlkit/exit.go:13-15 | the empty result with the ErrExit sentinel, which needs a requeue |
| Signal.IgnoreExit | ctrlkit/pkg/ctrlkit/exit.go:18-26 | the result is never changed; the error becomes nil exactly when it is ErrExit itself, and is kept otherwise, including an aggregate that holds ErrExit |
| Signal.IgnoreExitIdempotent | ctrlkit/pkg/ctrlkit/exit.go:18-26 | applying IgnoreExit twice is applying it once |
| Signal.JoinResultAndErr | ctrlkit/pkg/ctrlkit/join.go:17-30 | the merged requeue flag is the OR of both; the merged error is nil iff both are; a nil child error leaves the accumulator's error unchanged |
| Signal.JoinResultAndErrParts | ctrlkit/pkg/ctrlkit/join.go:18-20 | the merged error's parts are the accumulator's followed by the child's |
| Signal.JoinResultAndErrSoonest | ctrlkit/pkg/ctrlkit/join.go:24-28 | merging one more delay keeps the accumulator the soonest positive delay seen (0 when none is positive) |
| Signal.NeedsRequeueOfMerge | ctrlkit/pkg/ctrlkit/loop.go:9-12 | with a non-negative accumulated delay, a merged outcome needs a requeue iff the accumulator or the child does |
| Signal.JoinAll | ctrlkit/pkg/ctrlkit/join.go:32-39 | folding from the zero result gives a nil error or an aggregate, and a delay that is never negative |
| Signal.JoinAllFlags | ctrlkit/pkg/ctrlkit/join.go:18-23 | the join requeues iff some child requeues, and its error is nil iff every child's error is nil |
| Signal.JoinAllSoonest | ctrlkit/pkg/ctrlkit/join.go:24-28 | the joined delay is the minimum positive child delay, or 0 when no child has a positive delay |
| Signal.JoinAllErrors | ctrlkit/pkg/ctrlkit/join.go:18-20 | the joined aggregate holds exactly the children's non-nil errors in fold order, each aggregate flattened one level |
| Signal.JoinAllPermutation | ctrlkit/pkg/ctrlkit/join.go:12-16 | folding a permutation of the outcomes gives the same result fields and the same multiset of errors |
| Signal.JoinResultAndErrCommutes | ctrlkit/pkg/ctrlkit/join.go:17-30 | for non-negative delays, merging in either order gives the same result and the same multiset of errors |
| Signal.JoinResultAndErrAssociates | ctrlkit/pkg/ctrlkit/join.go:17-30 | for non-negative delays the merge is associative, errors included |
| Signal.JoinAllConcat | ctrlkit/pkg/ctrlkit/join.go:32-39 | joining a concatenation is merging the joins of the two parts |
| Signal.ExitThroughJoinIsNotIgnored | ctrlkit/pkg/ctrlkit/exit.go:24-25 | an Exit among joined outcomes ends up in an aggregate that is not ErrExit, so IgnoreExit keeps a non-nil error |
| Signal.JoinExamples | ctrlkit/pkg/ctrlkit/join.go:12-16 | examples only: the soonest of two delays wins, and an error and an immediate requeue are both kept |
| Actions.SequentialFoldStops | ctrlkit/pkg/ctrlkit/sequential.go:12-19 | the fold returns the outcome of the first child that needs a requeue, having run exactly the children up to it; otherwise it runs all of them and returns NoRequeue |
| Actions.SequentialFoldRequeues | ctrlkit/pkg/ctrlkit/sequential.go:12-19 | the fold needs a requeue iff some child's run does |
| Actions.GroupTextOne | ctrlkit/pkg/ctrlkit/utils.go:11-15 | with one child the description is head + "(" + d + ")" |
| Actions.GroupTextLength | ctrlkit/pkg/ctrlkit/utils.go:9-16 | n children give the head, two brackets, their texts and n - 1 separators ", " |
| Actions.WrapAction | ctrlkit/pkg/ctrlkit/wrap.go:16-26 | any description, the empty one included, is returned unchanged as the action's description |
| Actions.If | ctrlkit/pkg/ctrlkit/if.go:4-10 | the action itself when the condition holds, the shared Nop otherwise |
| Actions.Parallel | ctrlkit/pkg/ctrlkit/parallel.go:29-36 | always a parallel wrapper: the argument itself when it already is one, otherwise a new wrapper around it |
| Actions.Timeout | ctrlkit/pkg/ctrlkit/timeout.go:28-30 | always a new wrapper holding the duration and the action |
| Actions.Sequential | ctrlkit/pkg/ctrlkit/sequential.go:22-35 | a single action is returned itself; several become a Sequential group in the given order |
| Actions.Join | ctrlkit/pkg/ctrlkit/join.go:70-87 | a single action is returned itself; several become a Join group over the permutation chosen once at construction |
| Actions.JoinOrdered | ctrlkit/pkg/ctrlkit/join.go:90-104 | a single action is returned itself; several become a JoinOrdered group in the given order |
| Actions.JoinInParallel | ctrlkit/pkg/ctrlkit/join.go:107-121 | a single action is returned itself; several become a JoinInParallel group in the given order |
| Actions.WrapActionRuns | ctrlkit/pkg/ctrlkit/wrap.go:20-22 | running a wrapped function calls it exactly once, with the caller's context, and returns its outcome untouched |
| Actions.NopRuns | ctrlkit/pkg/ctrlkit/nop.go:11-20 | Nop calls nothing, returns NoRequeue under every context, never needs a requeue and is described as "Nop" |
| Actions.IfFalseIsNop | ctrlkit/pkg/ctrlkit/if.go:7-8 | If(false, a) never runs a, returns NoRequeue and is described as "Nop" |
| Actions.ParallelIdempotent | ctrlkit/pkg/ctrlkit/parallel.go:30-32 | Parallel(Parallel(a)) == Parallel(a) |
| Actions.ParallelPassesThrough | ctrlkit/pkg/ctrlkit/parallel.go:14-27 | Parallel returns exactly its inner action's run and is described as "Parallel(" + inner + ")" unless its argument already was a parallel wrapper |
| Actions.ParallelChecksTopLevelOnly | ctrlkit/pkg/ctrlkit/parallel.go:33-35 | a Timeout around a Parallel gets a new wrapper; only the top-level type is checked |
| Actions.TimeoutPassesThrough | ctrlkit/pkg/ctrlkit/timeout.go:16-25 | Timeout returns exactly its inner action's run under the narrowed context; its description puts the inner description before the duration |
| Actions.TimeoutNotCollapsed | ctrlkit/pkg/ctrlkit/timeout.go:28-30 | nested Timeouts are kept, and the inner action runs under both deadlines |
| Actions.SequentialStopsAtFirstRequeue | ctrlkit/pkg/ctrlkit/sequential.go:12-16 | the first child whose outcome needs a requeue has its outcome returned unchanged, and no later child is run |
| Actions.SequentialNoRequeue | ctrlkit/pkg/ctrlkit/sequential.go:19 | when no child needs a requeue, all of them run and the outcome is exactly NoRequeue, whatever non-positive delays they returned |
| Actions.SequentialRequeuesIff | ctrlkit/pkg/ctrlkit/sequential.go:12-19 | a Sequential of several actions needs a requeue iff one of its children does |
| Actions.ExitShortCircuitsSequential | ctrlkit/pkg/ctrlkit/exit.go:13-15 | an Exit at the head of a Sequential is returned, and nothing after it runs |
| Actions.JoinOrderedRunsAll | ctrlkit/pkg/ctrlkit/join.go:32-39 | a JoinOrdered of several actions runs every child exactly once, in order, with no short circuit, and merges all outcomes; JoinInParallel runs the same |
| Actions.RunAllPermutation | ctrlkit/pkg/ctrlkit/join.go:81 | running a permutation of the actions gives a permutation of the runs |
| Actions.JoinFoldPermutation | ctrlkit/pkg/ctrlkit/join.go:32-39 | merging permuted runs gives the same result, multiset of errors and multiset of calls, given the same leaf outcomes |
| Actions.JoinLikeJoinOrdered | ctrlkit/pkg/ctrlkit/join.go:69-87 | Join's shuffled order gives the same requeue fields, the same multiset of errors and the same multiset of calls as JoinOrdered, given the same leaf outcomes |
| Actions.JoinFoldAppend | ctrlkit/pkg/ctrlkit/join.go:32-39 | merging two lists of runs in sequence is merging their two merges |
| Actions.JoinFoldSingle | ctrlkit/pkg/ctrlkit/join.go:17-30 | merging a join's own outcome into the zero accumulator leaves it unchanged |
| Actions.JoinOrderedNests | ctrlkit/pkg/ctrlkit/join.go:90-104 | a JoinOrdered of two JoinOrdered groups runs like one JoinOrdered of all their children, given the same leaf outcomes |
| Actions.ExitThroughJoinSurvives | ctrlkit/pkg/ctrlkit/exit.go:17-26 | an Exit returned by a child of a join is not stripped by IgnoreExit on the join's outcome |
| Actions.JoinDescriptions | ctrlkit/pkg/ctrlkit/join_test.go:5-19 | examples only: Join(Nop, Nop) is described as "Join(Nop, Nop)", JoinInParallel(Nop) is Nop, and JoinInParallel(Nop, Nop) is described as "JoinInParallel(Nop, Nop)", not "ParallelJoin(Nop, Nop)" |
| Runners.RunSequentialActions | ctrlkit/pkg/ctrlkit/sequential.go:9-20 | the loop with early return computes the Sequential fold of the children's runs, outcome and calls |
| Runners.RunJoinActions | ctrlkit/pkg/ctrlkit/join.go:32-39 | the accumulating loop computes the Join fold of the children's runs, outcome and calls |
| Runners.FillSlots | ctrlkit/pkg/ctrlkit/join.go:42-59 | slot i holds exactly child i's result, error and calls |
| Runners.MergeSlots | ctrlkit/pkg/ctrlkit/join.go:60-63 | merging slots that hold the children's runs in index order gives their Join fold |
| Runners.RunJoinActionsInParallel | ctrlkit/pkg/ctrlkit/join.go:41-67 | folding the filled slots in index order computes the same Join fold as runJoinActions |
| Runners.DescribeGroup | ctrlkit/pkg/ctrlkit/utils.go:6-19 | the description is the head, then the child descriptions in order joined by ", ", in parentheses |
| Runners.WriteGroup | ctrlkit/pkg/ctrlkit/utils.go:10-18 | the buffer-building loop (every description but the last followed by ", ", then the last and ")") yields the head and the descriptions joined by ", " in parentheses |
| GenModel.StateValue.AddSelector | ctrlkit/pkg/gen/model.go:73-79 | true iff the key was absent; the selector table gains the key only then, an existing value is never overwritten, and nothing else changes |
| GenModel.DeclValue.AddStateDeclaration | ctrlkit/pkg/gen/model.go:96-102 | true iff no state had that name; the state table is insert-if-absent by name and nothing else changes |
| GenModel.DeclValue.ContainsState | ctrlkit/pkg/gen/model.go:104-107 | a state name is contained iff it is a key of the declaration's state table |
| GenModel.DeclValue.AddStateContains | ctrlkit/pkg/gen/model.go:96-107 | after adding a state, the contained names are exactly the earlier ones and the new state's name |
| GenModel.DeclValue.AddActionDeclaration | ctrlkit/pkg/gen/model.go:109-116 | a known name is refused with nothing changed; a new one is appended to the list and recorded in the table |
| GenModel.AddActionKeepsConsistent | ctrlkit/pkg/gen/model.go:109-116 | the action list and table stay consistent (distinct names, the same key set, each name mapped to its own declaration) and earlier actions keep their order |
| GenModel.DocValue.IsGvBound | ctrlkit/pkg/gen/model.go:30-36 | holds iff a bind is stored for the group-version and its package is non-empty |
| GenModel.DocValue.DoesAliasExists | ctrlkit/pkg/gen/model.go:46-52 | holds iff the alias is stored and names a non-empty kind |
| GenModel.DocValue.AddGvBind | ctrlkit/pkg/gen/model.go:18-28 | true iff the group-version was unbound; the bind table is insert-if-absent, nothing else changes, and a new bind is bound iff its package is non-empty |
| GenModel.DocValue.AddGvkAliases | ctrlkit/pkg/gen/model.go:38-44 | true iff the alias was unknown; the alias table is insert-if-absent keyed by alias, nothing else changes, and the new alias exists iff its kind text is non-empty |
| GenModel.GrowsKeepsResolution | ctrlkit/pkg/gen/model.go:30-63 | a bound group-version, an existing alias and an existing declaration stay so in any document that extends the tables |
| GenModel.ControllerManagerDocument.constructor | ctrlkit/pkg/gen/parser.go:119-125 | a document with empty tables |
| GenModel.ControllerManagerDocument.AddGvBind | ctrlkit/pkg/gen/model.go:18-28 | updates the document in place exactly as the value operation does and returns its flag |
| GenModel.ControllerManagerDocument.AddGvkAliases | ctrlkit/pkg/gen/model.go:38-44 | updates the document in place exactly as the value operation does and returns its flag |
| GenModel.ControllerManagerDocument.StoreDecl | ctrlkit/pkg/gen/parser.go:253 | the declaration is copied into the table under its name; nothing else changes |
| GenModel.StateDeclaration.constructor | ctrlkit/pkg/gen/parser.go:206-212 | a state with the given comments, name, type and array flag and no selectors |
| GenModel.StateDeclaration.AddSelector | ctrlkit/pkg/gen/model.go:73-79 | updates the state in place exactly as the value operation does and returns its flag |
| GenModel.ControllerManagerDeclaration.constructor | ctrlkit/pkg/gen/parser.go:317-324 | a declaration with the given comments, name and target and no states or actions |
| GenModel.ControllerManagerDeclaration.AddStateDeclaration | ctrlkit/pkg/gen/model.go:96-102 | updates the declaration in place exactly as the value operation does and returns its flag |
| GenModel.ControllerManagerDeclaration.AddActionDeclaration | ctrlkit/pkg/gen/model.go:109-116 | updates the declaration in place exactly as the value operation does and returns its flag |
| GenTokens.ParseGvAccepts | ctrlkit/pkg/gen/parser.go:40-56 | accepts exactly "v1" (the core group) and texts holding a '/'; otherwise fails with "invalid gv"; the version is the '/'-free text after the last '/' and group + "/" + version gives the input back |
| GenTokens.ParseGvOfString | ctrlkit/pkg/gen/parser.go:40-56 | printing a group-version and parsing it back gives it again |
| GenTokens.ParseGvkAccepts | ctrlkit/pkg/gen/parser.go:24-38 | no '/' or a trailing '/' is an error; on success the kind is the non-empty '/'-free text after the last '/', and the rest parses as the group-version |
| GenTokens.ParseGvkOfString | ctrlkit/pkg/gen/parser.go:24-38 | printing group/version/kind and parsing it back gives it again |
| GenTokens.ParseBind | ctrlkit/pkg/gen/parser.go:69-78 | exactly three words are needed, and the group-version word must parse |
| GenTokens.ParseAlias | ctrlkit/pkg/gen/parser.go:80-90 | succeeds iff there are three words and the alias holds no '/', returning (gvk, alias); each error cause is stated |
| GenTokens.ParseDeclOpen | ctrlkit/pkg/gen/parser.go:92-106 | succeeds iff there are five words with "for" third and "{" last, returning (name, target); each error cause is stated |
| GenTokens.IsBeginBracket | ctrlkit/pkg/gen/parser.go:108-110 | the words are exactly the single word "{" |
| GenTokens.IsEndBracket | ctrlkit/pkg/gen/parser.go:112-114 | the words are exactly the single word "}" |
| GenTokens.BracketLine | ctrlkit/pkg/gen/parser.go:108-114 | a line's words are a lone "{" (or "}") iff that bracket is the only non-space character of the line |
| GoStrings.Fields | ctrlkit/pkg/gen/parser.go:58-67 | the words of a line (bufio.ScanWords over Unicode white space) are non-empty and hold no space |
| GoStrings.FieldsCoverNonSpace | ctrlkit/pkg/gen/parser.go:58-67 | the words, concatenated in order, are exactly the non-space characters of the line |
| GenParser.ActionParams | ctrlkit/pkg/gen/parser.go:226-235 | the parameters are the comma-separated texts, so none holds a ',' |
| GenParser.ParseLines | ctrlkit/pkg/gen/parser.go:137-337 | after any number of lines without error, the parser state is well formed |
| GenParser.DocResolvesGrows | ctrlkit/pkg/gen/parser.go:279-303 | growing the bind and alias tables keeps a document resolving when every new alias resolves |
| GenParser.AddStateKeepsResolves | ctrlkit/pkg/gen/parser.go:195-202 | adding a state whose type is an existing alias keeps the declaration resolving |
| GenParser.FeedStateDeclKeepsWellFormed | ctrlkit/pkg/gen/parser.go:166-185 | a line in a state block keeps the parser state well formed |
| GenParser.FeedStateKeepsWellFormed | ctrlkit/pkg/gen/parser.go:186-217 | a line in a `state` block keeps the parser state well formed |
| GenParser.FeedActionKeepsWellFormed | ctrlkit/pkg/gen/parser.go:218-251 | an action line keeps the parser state well formed: every parameter is a declared state and action names stay distinct |
| GenParser.DeclareActionKeepsWellFormed | ctrlkit/pkg/gen/parser.go:236-249 | declaring an action whose parameters all name states of the open declaration keeps the parser state well formed |
| GenParser.FeedDeclBodyKeepsWellFormed | ctrlkit/pkg/gen/parser.go:252-276 | a line in a declaration body keeps the parser state well formed, including the stored declaration |
| GenParser.StoreDeclKeepsResolves | ctrlkit/pkg/gen/parser.go:253 | storing a resolving declaration under its own name keeps the document resolving |
| GenParser.FeedTopKeepsWellFormed | ctrlkit/pkg/gen/parser.go:277-334 | a bind, alias or decl keeps the parser state well formed: aliases name bound group-versions, and declarations target bound group-versions or aliases |
| GenParser.FeedKeepsWellFormed | ctrlkit/pkg/gen/parser.go:137-337 | every line keeps the parser state well formed |
| GenParser.FeedStatement | ctrlkit/pkg/gen/parser.go:150-164 | a line that is neither blank nor a comment goes to the handler of the current block |
| GenParser.FeedComment | ctrlkit/pkg/gen/parser.go:153-162 | a line whose first word starts with "//" adds the trimmed text after "//" to the buffer, starting a new buffer after a blank line |
| GenParser.BlankLineSkipped | ctrlkit/pkg/gen/parser.go:144-148 | a blank line changes nothing but the blank-line mark; the comment buffer survives it |
| GenParser.CommentLine | ctrlkit/pkg/gen/parser.go:153-162 | a comment line keeps only the last contiguous block: after a blank line it starts a new one |
| GenParser.BindRedeclared | ctrlkit/pkg/gen/parser.go:279-287 | on a `bind` line, a group-version that is already bound is a redeclaration error on that line |
| GenParser.AliasNeedsBoundGv | ctrlkit/pkg/gen/parser.go:288-303 | on an `alias` line, an alias whose group-version is unbound is "type not found"; a repeated alias is a redeclaration; otherwise it is added and the comments are cleared |
| GenParser.TopLine | ctrlkit/pkg/gen/parser.go:277-278 | a statement line outside any declaration goes to the top-level handler |
| GenParser.DeclOpens | ctrlkit/pkg/gen/parser.go:304-331 | on a `decl` line, a taken name is a redeclaration; a target that is neither bound nor an alias is "bind not found"; otherwise the declaration opens with the pending comments |
| GenParser.ArrayStateOpens | ctrlkit/pkg/gen/parser.go:191-216 | `name []T {` opens an array state of alias T when T exists, and is "type not found" otherwise |
| GenParser.SelectorLine | ctrlkit/pkg/gen/parser.go:173-185 | `k=v` adds (k, v) unless k is already a selector, which keeps its first value; a second '=' is an "invalid selector" error |
| GenParser.DuplicateStateDropped | ctrlkit/pkg/gen/parser.go:167-172 | closing a state whose name is already declared silently keeps the first state |
| GenParser.ActionWithoutParams | ctrlkit/pkg/gen/parser.go:223-249 | `name()` declares an action with no parameters, or is a redeclaration error when the name is taken |
| GenParser.ActionWithoutParenthesis | ctrlkit/pkg/gen/parser.go:223-225 | an action line without '(' is refused |
| GenParser.SelectorLineSize | ctrlkit/pkg/gen/parser.go:174-176 | inside a state declaration, a line of more than one word is refused with "size not match" |
| GenParser.BareSelectorLine | ctrlkit/pkg/gen/parser.go:177-184 | a selector word without '=' adds the key with an empty value, unless the key is already a selector |
| GenParser.ActionLineMalformed | ctrlkit/pkg/gen/parser.go:223-225 | an action line that starts with '(' or does not end with ')' is refused |
| GenParser.FeedActionCall | ctrlkit/pkg/gen/parser.go:226-232 | on `name(args)`, arguments holding '(' or ')' are refused; other arguments are split at ',' and trimmed, and the action is declared with them |
| GenParser.NestedParenthesesRefused | ctrlkit/pkg/gen/parser.go:226-229 | an action line `name(args)` whose arguments hold '(' or ')' is refused |
| GenParser.DeclareActionCases | ctrlkit/pkg/gen/parser.go:233-249 | a parameter that is not a state of the open declaration fails with "type not found"; otherwise a taken name fails with a redeclaration; otherwise the action is appended and the comments are reset |
| GenParser.UndeclaredParamRefused | ctrlkit/pkg/gen/parser.go:236-239 | an action line with a parameter that is not a state of the open declaration is refused with "type not found" |
| GenParser.FeedTopGrows | ctrlkit/pkg/gen/parser.go:277-334 | a top-level statement only extends the bind and alias tables |
| GenParser.FeedStateDeclKeepsDoc | ctrlkit/pkg/gen/parser.go:166-185 | lines in a state block leave the document unchanged |
| GenParser.FeedStateKeepsDoc | ctrlkit/pkg/gen/parser.go:186-217 | lines in a `state` block leave the document unchanged |
| GenParser.FeedActionKeepsDoc | ctrlkit/pkg/gen/parser.go:218-251 | action lines leave the document unchanged |
| GenParser.FeedDeclBodyStores | ctrlkit/pkg/gen/parser.go:252-258 | the closing bracket stores the declaration under its name and leaves the declaration; nothing else in a body touches the document |
| GenParser.DispatchGrows | ctrlkit/pkg/gen/parser.go:164-334 | every statement only grows the document, and the declarations change only at a declaration's closing bracket |
| GenParser.FeedGrows | ctrlkit/pkg/gen/parser.go:137-337 | every line only grows the document, and the declarations change only at a declaration's closing bracket |
| GenParser.StopIsFinal | ctrlkit/pkg/gen/parser.go:137-337 | once a line fails, the parse fails with that error whatever follows |
| GenParser.ParseLinesGrows | ctrlkit/pkg/gen/parser.go:137-337 | each prefix of the input parses without error, and the document only grows from line to line |
| GenParser.ParsedDocumentResolves | ctrlkit/pkg/gen/parser.go:118-344 | in a parsed document every reference resolves; a declaration left open at the end is not stored |
| GenParseDoc.DocParser.constructor | ctrlkit/pkg/gen/parser.go:119-134 | a fresh empty document and the initial parser state |
| GenParseDoc.DocParser.TopStatement | ctrlkit/pkg/gen/parser.go:277-334 | the in-place update matches the functional handler of top-level statements |
| GenParseDoc.DocParser.DeclBodyStatement | ctrlkit/pkg/gen/parser.go:251-276 | the in-place update matches the functional handler of declaration bodies |
| GenParseDoc.DocParser.StateStatement | ctrlkit/pkg/gen/parser.go:186-217 | the in-place update matches the functional handler of `state` blocks |
| GenParseDoc.DocParser.StateDeclStatement | ctrlkit/pkg/gen/parser.go:166-185 | the in-place update matches the functional handler of state blocks |
| GenParseDoc.DocParser.StatesDeclared | ctrlkit/pkg/gen/parser.go:236-240 | the check succeeds iff every parameter is a state of the open declaration |
| GenParseDoc.DocParser.ActionStatement | ctrlkit/pkg/gen/parser.go:218-251 | the in-place update matches the functional handler of action lines |
| GenParseDoc.DocParser.DeclareActionStatement | ctrlkit/pkg/gen/parser.go:236-249 | the parameter check, the insert-if-absent of the action and the comment reset match the functional declaration step, errors included |
| GenParseDoc.DocParser.Statement | ctrlkit/pkg/gen/parser.go:164-334 | the flag-driven dispatch matches the functional dispatch |
| GenParseDoc.DocParser.StatementLine | ctrlkit/pkg/gen/parser.go:164-337 | a statement line does what the functional dispatch does, and afterwards the previous line is no longer blank |
| GenParseDoc.DocParser.Comment | ctrlkit/pkg/gen/parser.go:154-161 | the buffer restarts after a blank line and gains the trimmed comment text; nothing else changes |
| GenParseDoc.DocParser.PushComment | ctrlkit/pkg/gen/parser.go:155-160 | the buffer is emptied first when the previous line was blank, then gains the text; the blank-line mark is cleared and nothing else changes |
| GenParseDoc.DocParser.FeedLine | ctrlkit/pkg/gen/parser.go:137-337 | one loop iteration updates the objects exactly as the functional semantics does |
| GenParseDoc.ParseDoc | ctrlkit/pkg/gen/parser.go:118-344 | the document built in place is the functional one, or the first failing line's error is returned with no document |
| GenBuilder.ConstructPkgAliasForGvPkg | ctrlkit/pkg/gen/builder.go:31-45 | "corev1" for the core group; otherwise it panics iff the package path has no '/' |
| GenBuilder.PkgAliasOfPath | ctrlkit/pkg/gen/builder.go:35-43 | for a path of at least two segments the alias is the last segment, or the one before it when the last equals the version, followed by the version |
| GenBuilder.UpperTheFirstCharInWord | ctrlkit/pkg/gen/builder.go:246-251 | the length is kept, only the first character is upper-cased, and "" stays "" |
| GenBuilder.LowerTheFirstCharInWord | ctrlkit/pkg/gen/builder.go:230-235 | the length is kept, only the first character is lower-cased, and "" stays "" |
| GenBuilder.CaseRoundTrips | ctrlkit/pkg/gen/builder.go:230-251 | lowering undoes upper-casing of a lower-case first letter and the other way round; each change is idempotent |
| GenBuilder.SentencesAsWrittenDropsSpace | ctrlkit/pkg/gen/builder.go:237-244 | as written, "word rest" becomes the lowered word directly followed by rest, without the space |
| GenBuilder.LowerTheFirstCharInSentences | ctrlkit/pkg/gen/builder.go:237-244 | as intended, only the first character of the whole text is lowered and the space is kept |
| GenBuilder.SentencesAsWrittenDiffers | ctrlkit/pkg/gen/builder.go:237-244 | on every text with a space, the code as written is one character shorter than intended |
| GenBuilder.NextReference | ctrlkit/pkg/gen/builder.go:257-271 | reading one `${...}` reference computes the reference step |
| GenBuilder.NextExprAsWritten | ctrlkit/pkg/gen/builder.go:257-284 | one iteration of the renderer's loop as written computes the as-written step |
| GenBuilder.GetStrExprAsWritten | ctrlkit/pkg/gen/builder.go:253-287 | the loop as written yields the as-written scan, its parts joined by " + "; its refusals are stated by GenBuilder.UnclosedRefused, GenBuilder.NonTargetRefused and GenBuilder.DollarRefused |
| GenBuilder.NextExpr | ctrlkit/pkg/gen/builder.go:257-284 | one iteration of the corrected loop computes the corrected step |
| GenBuilder.GetStrExpr | ctrlkit/pkg/gen/builder.go:253-287 | the corrected loop yields the corrected scan, its parts joined by " + "; its refusals are stated by GenBuilder.UnclosedRefused, GenBuilder.NonTargetRefused, GenBuilder.DollarRefused and GenBuilder.RefusalsAfterLiteral, and `${X}` without a '.' by GenBuilder.ReferenceWithoutField |
| GenBuilder.ScanPrinted | ctrlkit/pkg/gen/builder.go:256-283 | rendering a printed template of literals, `${target}` and `${target.F}` gives one Go expression per segment, in order: the quoted literal, the stub, or stub + "." + F |
| GenBuilder.GetStrExprOfTemplate | ctrlkit/pkg/gen/builder.go:253-287 | the expression of a printed template is its segments' expressions joined by " + " |
| GenBuilder.ScanExprNeverPanics | ctrlkit/pkg/gen/builder.go:274-283 | the corrected renderer never slices out of bounds |
| GenBuilder.NoReference | ctrlkit/pkg/gen/builder.go:276-279 | text without '$' becomes one quoted literal, in both versions |
| GenBuilder.UnclosedRefused | ctrlkit/pkg/gen/builder.go:257-262 | a "${" followed by text with no '}' is refused as an unclosed reference, by the as-written and the corrected renderer alike |
| GenBuilder.NonTargetRefused | ctrlkit/pkg/gen/builder.go:263-270 | a reference `${a.b}` whose head `a` is not "target" is refused as a non-target reference, whatever follows it, in both versions |
| GenBuilder.DollarRefused | ctrlkit/pkg/gen/builder.go:257-273 | a '$' that opens no reference (a bare '$', a '$' not followed by '{', or "${" ending the text) is refused as "'$' is not allowed", in both versions |
| GenBuilder.ReferenceWithoutField | ctrlkit/pkg/gen/builder.go:263-265 | `${X}` with no '.' in X renders as the bare stub whatever X names, followed by the rendering of the rest; on its own it is the single part `stub`, in both versions |
| GenBuilder.ScanPrintedThen | ctrlkit/pkg/gen/builder.go:256-286 | after a printed template, the corrected scan goes on from the next '$' as it would at the start of the text: the template's parts come first, then whatever the rest yields, a refusal included |
| GenBuilder.RefusedAfterTemplate | ctrlkit/pkg/gen/builder.go:256-273 | a refusal after literal text and references is the result of the whole text, and getStrExpr returns its error |
| GenBuilder.RefusalsAfterLiteral | ctrlkit/pkg/gen/builder.go:259-273 | after '$'-free literal text, an unclosed reference, a non-target reference and a '$' that opens no reference are each refused with their own error by the corrected renderer |
| GenBuilder.AsWrittenLosesReference | ctrlkit/pkg/gen/builder.go:280-283 | as written, a reference after literal text is not read: the '$' is skipped and "{target.F}" is quoted as text |
| GenBuilder.ReadsReferenceAfterLiteral | ctrlkit/pkg/gen/builder.go:253-287 | the corrected renderer reads the literal and then the target's field |
| GenBuilder.LiteralPanicsAsWritten | ctrlkit/pkg/gen/builder.go:281 | as written, literal text at position i that runs into a '$' at offset below i slices out of bounds |
| GenBuilder.AsWrittenPanics | ctrlkit/pkg/gen/builder.go:271-283 | as written, a reference followed by a short literal and a '$' panics, where the corrected renderer does not |
| GenBuilder.GetStateNameExpr | ctrlkit/pkg/gen/builder.go:289-292 | the `name` selector rendered against "s.target" by the given renderer (the package runs `AsWritten`), panic included; a state without one gives the empty expression; only the intended renderer never panics |
| GenBuilder.NameSelectorPanicsAsWritten | ctrlkit/pkg/gen/builder.go:289-292 | a `name` selector `${target.F}` followed by a literal shorter than the reference and a '$' makes getStateNameExpr panic as written, and not with the intended renderer |
| GenBuilder.WriteLines | ctrlkit/pkg/gen/builder.go:304-320 | writing every line with a newline and cutting the last character joins the lines by newlines |
| GenBuilder.GenerateMapKeyAndValuesInGo | ctrlkit/pkg/gen/builder.go:294-321 | the rendered map text, with quoted values |
| GenBuilder.GenerateMapKeyAndUnquotedValuesInGo | ctrlkit/pkg/gen/builder.go:323-348 | the rendered map text, with values as they are |
| GenBuilder.MapTextLines | ctrlkit/pkg/gen/builder.go:294-348 | an empty map gives ""; otherwise the lines correspond one to one with the keys in ascending order, each `indent"k":v,`, with no trailing newline |
| GenBuilder.FormatSelectorsIntoCommentsAsWritten | ctrlkit/pkg/gen/builder.go:128-147 | the loop as written computes the as-written comment text, a panic for no selectors |
| GenBuilder.FormatSelectorsIntoComments | ctrlkit/pkg/gen/builder.go:128-147 | the corrected loop computes the selector lines joined by newlines |
| GenBuilder.SelectorCommentsAgree | ctrlkit/pkg/gen/builder.go:145-146 | the code as written panics iff there are no selectors; otherwise it agrees with the corrected version, which gives "" for none |
| GenBuilder.SelectorCommentLines | ctrlkit/pkg/gen/builder.go:131-143 | one line per selector in ascending key order: "//   + k", then "=v" when v is non-empty |
| GenBuilder.IndentStrLines | ctrlkit/pkg/gen/builder.go:378-382 | indenting keeps the lines, each with the indent in front |
| GenBuilder.IndentStrTwice | ctrlkit/pkg/gen/builder.go:378-382 | indenting twice is indenting once by both indents |
| GenBuilder.CheckOwnershipLines | ctrlkit/pkg/gen/builder.go:384-403 | "" iff both blocks are empty; otherwise the ownership test (negated when only the false block is given), the tab-indented lines of the given blocks separated by "} else {", and "}" |
| GenBuilder.ParamRefTypeResolves | ctrlkit/pkg/gen/builder.go:585-601 | in a resolving document a declared parameter never fails to parse: it is "*" or "[]" for an array, then the bind's package alias, ".", and the kind; it panics iff that bind's path has no '/' outside the core group |
| GenBuilder.UnknownParamFails | ctrlkit/pkg/gen/builder.go:586-592 | an undeclared parameter reads the zero state, whose empty type fails as an invalid group-version-kind |
| GenBuilder.NoSelectorsPanicsAsWritten | ctrlkit/pkg/gen/builder.go:531-544 | a state without selectors takes a listing branch, where the selector comments as written panic and the corrected ones are empty |
| GenBuilder.GrabStateKinds | ctrlkit/pkg/gen/builder.go:531-544 | a `name` selector on an array is the error branch, on a single object the Get branch; without it an array is listed and a single object is got by list |
| GenBuilder.GenerateMatching | ctrlkit/pkg/gen/builder.go:350-376 | with the given renderer (the package runs `AsWritten`): succeeds iff every selector under the prefix renders; otherwise the error of some refused selector, or a panic of some selector that panics, which the intended renderer never gives; on success, the map text of the selectors under the prefix, keyed by the text after it, with rendered values |
| GenBuilder.RenderSelectors | ctrlkit/pkg/gen/builder.go:352-360 | with the given renderer, the loop fails iff some selector under the prefix does not render, reporting that selector's error or panic; otherwise it builds the table of renderings keyed by the text after the prefix |
| GenBuilder.RenderSelector | ctrlkit/pkg/gen/builder.go:353-359 | one selector: it fails only when under the prefix and its rendering is refused or panics; otherwise the table gains its entry exactly when it is under the prefix |
| GenBuilder.MatchingStep | ctrlkit/pkg/gen/builder.go:352-360 | handling one more selector extends the matching table by its entry only when it is under the prefix |

## Left out

- Goroutines, `sync.WaitGroup` and channels (ctrlkit/pkg/ctrlkit/join.go:41-60, ctrlkit/pkg/ctrlkit/parallel.go:19-24): `JoinInParallel` is modelled as "fill every slot, then fold in index order", and `Parallel` as a synchronous pass-through.
- The missing `wg.Add` before `wg.Done` in `runJoinActionsInParallel` (ctrlkit/pkg/ctrlkit/join.go:46-59) is not modelled. As written, the counter is never raised, so `wg.Wait()` returns at once and the merge loop can read slots no goroutine has filled yet. Each goroutine's deferred `wg.Done()` then drives the counter below zero, and Go panics with "sync: negative WaitGroup counter", which ends the process. So a `JoinInParallel` of two or more actions crashes as written; `Runners.RunJoinActionsInParallel` models the evident intent, every slot filled before the merge.
- `context.Context` is an opaque token narrowed by every Timeout. Deadlines, cancellation and the deferred `cancel()` are not modelled.
- `time.Duration.String()` in the Timeout description is a parameter (`show`).
- `multierr.Append` is modelled by its one-level flattening only. Its `Error()` text is not modelled.
- `lo.Shuffle` is a permutation supplied by the caller of `Join`. Its randomness is not modelled, nor is its reordering of the caller's variadic slice in place (ctrlkit/pkg/ctrlkit/join.go:81), which rests on the implementation of the `lo` library; that library is not part of this model.
- Leaf actions are deterministic and free of side effects in the model: `Impl` gives each leaf's outcome from the context and the leaf alone. Actions.JoinFoldPermutation, Actions.JoinLikeJoinOrdered and Actions.JoinOrderedNests therefore compare runs with the same leaf outcomes; a Go leaf whose result depends on shared state that another leaf changes can make a shuffled run differ from the ordered one.
- Strings are sequences of Unicode characters and are indexed by character, where Go indexes bytes. GenBuilder.GetStrExprAsWritten (with GenBuilder.NextExprAsWritten, GenBuilder.LiteralAsWritten and the callers run with `AsWritten`) compares a relative offset against an absolute one, so it matches the source on ASCII text only: for `é$ab$c`, Go resumes at byte 3, finds the next '$' at offset 2 < 3 and panics, while the model resumes at character 2 and does not.
- Actions.Sequential, Actions.Join, Actions.JoinOrdered, Actions.JoinInParallel, Runners.DescribeGroup and Runners.WriteGroup: the panic on an empty action list is a precondition, because the source treats it as a programming error.
- hook.go, validate.go and the interface in action.go have no logic of their own; the interface becomes the `Step` datatype.
- The command in ctrlkit/cmd/ctrlkit.go is not part of this model. It does flag parsing, file I/O and import formatting.
- From builder.go, the `fmt.Sprintf` code templates are not part of this model. This covers the `managerState*Template` bodies of `generateGetStateCodes`, `generateGetStateByListCodes` and `generateListStateCodes`, the stub templates and `generateMgrMethodBody`. Only the choice among these generators is modelled (`GrabStateKind`).
- `generateImports`, whose output order follows Go map iteration, is not part of this model.
- `GenerateStubCodesIntoFile` (file output) is not part of this model.
- `bufio.Scanner` errors and its line-length limit are left out: the parser reads a sequence of lines, and the final `scanner.Err()` check is never taken.
- The case helpers act on ASCII letters only; the length change of `bytes.ToLower`/`ToUpper` on non-ASCII or invalid UTF-8 first bytes is not modelled.
- GenBuilder.GenerateMatching: when several selectors fail to render, which failure is reported depends on Go's map iteration order. The contract only promises the error or panic of some failing selector under the prefix.
- GenBuilder.GenerateCheckOwnership: the `indent` parameter is accepted and ignored, as in the source.
- The demo module and the test files serve only as evidence of intended behaviour.

## Findings

| source | as written | input that shows it | evidently intended | confidence | as-written member | corrected member |
|---|---|---|---|---|---|---|
| ctrlkit/pkg/gen/builder.go:276-283 | literal text is cut at `expr[i:nextDollarIndex]`, an offset relative to `i` used as an absolute index, and `i` moves past the '$' | `risingwave-${target.Name}` renders as `"risingwave-" + "{target.Name}"`; `${target.Name}ab$x` slices out of range and panics | literal text runs up to the next '$', and the scan resumes at that '$' so a following `${...}` is read | not executed | GenBuilder.GetStrExprAsWritten (GenBuilder.AsWrittenLosesReference, GenBuilder.AsWrittenPanics, GenBuilder.NameSelectorPanicsAsWritten) | GenBuilder.GetStrExpr (GenBuilder.ScanPrinted, GenBuilder.GetStrExprOfTemplate, GenBuilder.ScanExprNeverPanics) |
| ctrlkit/pkg/gen/builder.go:242 | the lowered first word is concatenated with the remainder of `SplitN(s, " ", 2)` | `Foo bar` gives `foobar` | `foo bar`: only the first character changes | not executed | GenBuilder.LowerTheFirstCharInSentencesAsWritten (GenBuilder.SentencesAsWrittenDropsSpace) | GenBuilder.LowerTheFirstCharInSentences (GenBuilder.SentencesAsWrittenDiffers) |
| ctrlkit/pkg/gen/builder.go:145-146 | the last character is cut with `s[:len(s)-1]` even when nothing was written | a state block `name T {` followed by `}` has no selectors and is rendered by the listing generators (builder.go:467, 515), which panic | no selectors give no comment lines | not executed | GenBuilder.FormatSelectorsIntoCommentsAsWritten (GenBuilder.NoSelectorsPanicsAsWritten) | GenBuilder.FormatSelectorsIntoComments (GenBuilder.SelectorCommentsAgree) |

The callers of getStrExpr, `GenBuilder.GetStateNameExpr` and
`GenBuilder.GenerateMatching` (with its loop `GenBuilder.RenderSelectors`),
take the renderer as a parameter. Run with `AsWritten` they are the package
as it stands, lost references and panics included; run with `Intended` they
are the corrected generator.
