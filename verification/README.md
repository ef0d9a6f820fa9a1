# Verified models of the database server's core

This project models, in Dafny, the parts of the server that are hardest to get right, and proves
properties of them. `dafny verify dfyconfig.toml` checks everything.

Code that changes state in place is modelled by methods and classes that are proved against functions
on values; what the code promises is then proved about those functions, over all inputs, all runs or
all reachable states. Concurrent code is modelled as a state machine: one step is what one thread does
while it holds a mutex, and the gaps between critical sections are states of their own.

| files | what they model |
|---|---|
| `common.dfy` | options, bytes and two small facts that several modules use |
| `seda_*.dfy` | stages, thread pool and `kill_threads` as one protocol: queues, run-queue tokens, reference counts, sleeping and signalled workers |
| `timer_*.dfy` | the timer stage: token order, the queue, callers and timer thread |
| `rewrite_*.dfy` | expressions, plans and their rows; the rewrite rules; the optimizer's fixpoint |
| `operators.dfy` | table scan, predicate and nested-loop join as pull-based operators |
| `order_by.dfy` | the comparator of ORDER BY |
| `lru_cache.dfy` | the doubly linked LRU cache |
| `net_buffer.dfy` | the ring buffer and the buffered writer over a descriptor that may take part of the data, ask for a retry, or fail |
| `md5.dfy` | streaming and padding of MD5 (RFC 1321) |
| `calendar.dfy`, `calendar_datetime.dfy` | Julian day numbers, Gregorian dates, adding durations |
| `shared_mutex.dfy`, `lock_trace.dfy` | the recursive reader/writer lock and the deadlock detector |

## Where the code does not do what it says

The models follow the code. These are the places where that differs from its comments or from what
callers would expect, with proofs of when the code is right:

- The conjunction rule keeps `child_exprs.front()` where its comment says that the whole expression is
  false (or true), and it leaves an OR of false constants empty, which evaluates to true. `Misfires`
  is the guard of both branches. A misfire does no harm when the condition that is kept has the deciding
  truth whatever the data, as in `a > NULL AND 1 = 2`. `RightIffHarmless` and `KeepsRowsIffHarmless`
  prove, for any given comparison of values, that rule and optimizer are right in all databases if and
  only if the clause does not misfire or is of that kind. The rule `Intended` keeps the deciding constant.
- The comment on predicate pushdown asks that both sides be a column or a constant; the second test
  in the code is never true after the first, so a column compared for equality with anything is
  pushed. `Plans.Pushable` has the code's test; pushing keeps the rows all the same.
- `kill_threads` is to allow one transaction at a time, but its guard tests `threads_to_kill_`, which is 0
  after the last kill and before the first caller has disconnected the killer stage, and all the time when
  the first caller waits with nothing to kill; a second caller then fails an assertion. With nothing to
  kill the wait has no end, short of a spurious wake-up; with something to kill, the workers can always
  bring it to its end.
- `disconnect` waits for the events of its stage. It can return without new threads if and only if more
  workers are free than kill events come before the stage's last event.
- `add_duration_date_time` gives the months before January of the year in which it starts to count days a
  length of 28 days, both where it cuts the day of the month and where it carries days: 31 March less four
  months comes to 28 November. It comes to the day asked for if and only if it passes no month of wrong
  length, or passes just the month in which cutting the day to 28 has lost the days that the loop then
  gains (`ComesRight`). The result drops milliseconds. `operator+=` leaves a time of exactly one day as it is.
- `compare_string` compares the byte after a common prefix as a `char`, so where that is signed a string is
  before its own prefix when it continues it with a byte of 128 or more. Floats at most EPSILON apart tie.
  Values of different types are skipped as if they were equal; this concerns the comparator as a function,
  since a stored column has one type, or null. Rows are sortable when none of this happens at their
  first difference, or when it is between close floats and the later keys order the rows as these would. On
  rows that are sortable in pairs the comparator is a strict weak order; every two rows that are not
  stand in a set of three rows on which it is none.
- The deadlock detector goes by its records. A try-lock in vain leaves a wait until the thread's next lock: the
  recorded waits are the blocked threads if and only if there is no such wait, and a report is about
  blocked threads if and only if the chain comes back without one. The first of several unlocks of a
  recursive mutex takes it off the record, and a check that finds too many waits counted for a mutex nobody
  holds puts thread 0 on record: the recorded holders are the real ones if and only if no mutex is in one
  of these two states. Unlocking before the record is updated can leave
  the maps inconsistent.
- A ring buffer of capacity 0 is handled, but `writen` does not end with it (`WriteToNothing`).

## Model

| member | source | states |
|---|---|---|
| `SedaStage.Stage.Connect` | deps/common/seda/stage.cpp:84-112 | opening the stage makes every queued event a scheduled reference; the new fields are those of `Attach` of the old ones, and the backlog to schedule is the queue length |
| `SedaStage.Stage.AddEvent` | deps/common/seda/stage.cpp:152-170 | the event goes to the back; a reference is taken and a schedule is owed exactly while the stage is connected |
| `SedaStage.Stage.RemoveEvent` | deps/common/seda/stage.cpp:207-218 | the oldest event leaves the queue; the assertion that there is one is its precondition |
| `SedaStage.Stage.ReleaseEvent` | deps/common/seda/stage.cpp:225-233 | one reference is given back, and the disconnecting thread is signalled exactly when it was the last one of a closed stage |
| `SedaStage.Stage.Disconnect` | deps/common/seda/stage.cpp:126-134 | up to the first test of the wait loop: the stage is closed, and lets go of the pool at once exactly when no reference is out; nothing else has changed |
| `SedaStage.Stage.ResumeDisconnect` | deps/common/seda/stage.cpp:134-137 | after a wake-up, signalled or not: the stage lets go of the pool exactly when no reference is out, and otherwise waits on unchanged |
| `SedaInvariant.OkPop` | deps/common/seda/stage.cpp:207-218 | a stage with a scheduled event has an event to remove, and removing the oldest keeps the accounts of the stage |
| `SedaInvariant.OkPush` | deps/common/seda/stage.cpp:152-170 | an event added while connected is scheduled; one added while disconnected joins the unscheduled tail |
| `SedaInvariant.OkAttach` | deps/common/seda/stage.cpp:84-112 | connecting turns the whole backlog into scheduled events |
| `SedaInvariant.OkUnref` | deps/common/seda/stage.cpp:225-233 | releasing keeps the accounts and turns a waiting `disconnect` into a signalled one at zero |
| `SedaPreservation.ScheduleWakes` | deps/common/seda/thread_pool.cpp:220-236 | `schedule` with its skipped signal keeps: awake free workers are at least the smaller of the tokens and the free workers |
| `SedaPreservation.ScheduleSignals` | deps/common/seda/thread_pool.cpp:220-236 | `schedule` wakes a sleeping worker up exactly if there is one, unless a worker of the pool schedules into an empty run queue |
| `SedaPreservation.KeepsLook` | deps/common/seda/thread_pool.cpp:264-277 | a worker looking at the run queue, taking a token or going to sleep, keeps all invariants |
| `SedaPreservation.KeepsRemove` | deps/common/seda/thread_pool.cpp:279-279 | taking the event for a token keeps all invariants and cannot find the queue empty |
| `SedaPreservation.KeepsHandlerSchedule` | deps/common/seda/thread_pool.cpp:220-236 | a handler that adds an event and schedules it, perhaps without a signal, keeps all invariants |
| `SedaPreservation.KeepsRelease` | deps/common/seda/thread_pool.cpp:309-309 | releasing after the handler keeps all invariants |
| `SedaPreservation.KeepsThreadKill` | deps/common/seda/thread_pool.cpp:168-180 | `thread_kill` keeps all invariants, and signals the killer when the last kill is done |
| `SedaPreservation.KeepsExit` | deps/common/seda/kill_thread.cpp:28-34 | the exit path of a killed worker, which releases the reference itself, keeps all invariants |
| `SedaPreservation.KeepsDisconnect` | deps/common/seda/stage.cpp:126-142 | starting to disconnect keeps all invariants |
| `SedaPreservation.KeepsAddThreads` | deps/common/seda/thread_pool.cpp:91-115 | new workers keep all invariants |
| `SedaTheorems.KillThreadsIsSafe` | deps/common/seda/thread_pool.cpp:128-160 | entering `kill_threads` fails an assertion exactly when another call has posted its kills, has none outstanding, and has not disconnected the killer stage: between its last kill and its disconnect, or while it waits with nothing to kill |
| `SedaTheorems.StepIsSafe` | deps/common/seda/thread_pool.cpp:128-310 | each of the 22 steps keeps the invariant from every state in which it holds, and no assertion fails but the one of overlapping kills |
| `SedaTheorems.RunKeepsInv` | deps/common/seda/thread_pool.cpp:128-310 | the same over runs of any length |
| `SedaTheorems.TokenAccounting` | deps/common/seda/stage.cpp:84-112 | in every reachable state the scheduled events of a stage are the promised schedules, run-queue tokens and held tokens; the rest of the queue is a tail added while disconnected; removal is first in, first out |
| `SedaTheorems.ReferenceAccounting` | deps/common/seda/stage.cpp:225-233 | in every reachable state `event_ref_` is scheduled plus running events, never negative, and each removed event is released once or still running |
| `SedaEvents.EventsAreHandledOnce` | deps/common/seda/thread_pool.cpp:279-309 | in every run, for every stage: the events given to handlers and then the queue are the events that callers, handlers and `kill_threads` added, in their order; and an event was given as often as handlers are working on it or have ended |
| `SedaEvents.HistoriesAreReal` | deps/common/seda/stage.cpp:152-218 | the histories of a stage, by which the other accounts are stated, are those of the events added and given in the run |
| `SedaEvents.RemoveQueues` | deps/common/seda/stage.cpp:207-218 | a worker hands its handler exactly the event that leaves the queue, which is the oldest |
| `SedaTheorems.DetachedStageIsUnused` | deps/common/seda/stage.cpp:126-142 | in every reachable state a stage without pool has no caller, token or worker that refers to it, so `schedule` never meets a null pool |
| `SedaTheorems.DisconnectIsWokenUp` | deps/common/seda/stage.cpp:134-136 | while `disconnect` waits unsignalled, a reference is out whose release will signal it |
| `SedaDisconnect.DisconnectCanReturn` | deps/common/seda/stage.cpp:134-137 | in every reachable state in which `disconnect` waits: some run without new threads brings it to its end if and only if more workers are free than kill tokens come before the last token of the stage, queued or promised |
| `SedaDisconnect.EnoughReturns` | deps/common/seda/stage.cpp:134-137 | with enough workers, steps of workers and of threads that owe a schedule suffice, and the stage lets go of the pool |
| `SedaDisconnect.NotEnoughHangs` | deps/common/seda/stage.cpp:134-137 | without enough workers, no run without new threads leads out of the wait |
| `SedaDisconnect.StepKeepsEnough` | deps/common/seda/thread_pool.cpp:220-310 | no step but the creation of threads gives a waiting stage the workers it lacks, and only a further kill event takes them away |
| `SedaDisconnect.StarvedHappens` | deps/common/seda/thread_pool.cpp:128-160 | a run of ten steps in which a kill event overtakes an event, and `disconnect` of its stage is left without a worker |
| `SedaTheorems.NoLostWakeUp` | deps/common/seda/thread_pool.cpp:220-236 | no lost wake-up: awake workers outside kill events are at least the smaller of the queued tokens and the live workers outside kill events |
| `SedaTheorems.TokenFindsAwakeWorker` | deps/common/seda/thread_pool.cpp:264-277 | while a token is queued and a worker could take it, one of those workers is awake |
| `SedaTheorems.QuietMeansDone` | deps/common/seda/thread_pool.cpp:264-310 | when every worker sleeps and nobody is about to schedule, every event of every connected stage has been handled and released |
| `SedaTheorems.KillThreadsReturns` | deps/common/seda/thread_pool.cpp:128-209 | when `kill_threads(k)` returns, exactly min(k, threads) workers have exited since it began, nothing of the transaction is left, and `nthreads_` counts the live ones |
| `SedaTheorems.KillProgress` | deps/common/seda/thread_pool.cpp:128-160 | while kills are outstanding, tokens, held tokens and running kill handlers are together the kills still to come, and a kill token in the queue has an awake worker |
| `SedaProgress.SomeWorkerAdvances` | deps/common/seda/thread_pool.cpp:168-310 | until the kill has been told to go on and the killed workers are gone, some worker has a step that leaves less work |
| `SedaProgress.KillCanReturn` | deps/common/seda/thread_pool.cpp:128-209 | from every state of the invariant in which `kill_threads` waits for something, a run of worker steps and its own last two makes it return; nobody else has to do anything |
| `SedaProgress.WaitingKillReturns` | deps/common/seda/thread_pool.cpp:128-209 | the same for every reachable state: a waiting `kill_threads` with something to kill can return |
| `SedaCalls.KillCallReturns` | deps/common/seda/thread_pool.cpp:128-209 | in every reachable state: a `kill_threads` with something to kill can return, wherever it is |
| `SedaCalls.CallersGoOn` | deps/common/seda/stage.cpp:152-170 | a caller can add an event in any state of the stage and make the schedule that it owes |
| `SedaCalls.ControllersGoOn` | deps/common/seda/stage.cpp:84-142 | an idle stage can be connected, with its backlog to schedule, or disconnected; a connect under way goes on |
| `SedaCalls.WorkersGoOn` | deps/common/seda/thread_pool.cpp:264-310 | every worker that is awake can take its next step; only `thread_kill` waits for a mutex |
| `SedaCalls.KillerGoesOn` | deps/common/seda/thread_pool.cpp:128-209 | `kill_threads` can take its next step, up to its return |
| `SedaCalls.OthersGetIn` | deps/common/seda/thread_pool.cpp:128-137 | `add_threads` and `kill_threads` get in whenever the mutex is free; a second `kill_threads` changes nothing while kills are outstanding |
| `SedaTheorems.KillNothingHangs` | deps/common/seda/thread_pool.cpp:151-153 | with nothing to kill, no run of any length leads out of the wait |
| `SedaTheorems.KillTargetZero` | deps/common/seda/thread_pool.cpp:139-149 | that is the case exactly for `k == 0` or an empty pool |
| `SedaTheorems.OverlapHappens` | deps/common/seda/thread_pool.cpp:133-146 | a run of nine steps in which overlapping kills fail the assertion of `connect` |
| `Expressions.EvaluateConjunction` | src/observer/sql/expr/expression.cpp:294-319 | the loop computes "all" for AND and "some" for OR, and true for no children, whichever the type |
| `Expressions.HoldsMeaning` | src/observer/sql/expr/expression.cpp:294-319 | the first deciding child is the same as the quantified meaning of AND and OR |
| `ExpressionRules.SimplifyConjunction` | src/observer/sql/optimizer/conjunction_simplification_rule.cpp:28-82 | the erasing loop computes `Simplify`, for the rule as written (it keeps `child_exprs.front()`) and as intended |
| `ExpressionRules.RewriteExpression` | src/observer/sql/optimizer/expression_rewriter.cpp:61-137 | the recursive rewriting with its change flags computes `Rewrite`, about which the rows of `NormalForm` are proved |
| `ExpressionRules.RewriteChildren` | src/observer/sql/optimizer/expression_rewriter.cpp:114-130 | the loop over a conjunction rewrites every child in place and collects the flags |
| `ExpressionRules.SimplifyShrinks` | src/observer/sql/optimizer/conjunction_simplification_rule.cpp:28-82 | the conjunction rule never grows an expression, and shrinks it when it reports a change |
| `RewriteMeaning.IntendedSimplifyKeepsTruth` | src/observer/sql/optimizer/conjunction_simplification_rule.cpp:38-79 | with the deciding constant kept, simplifying keeps the truth of every conjunction on every row |
| `RewriteMeaning.FoldKeepsValue` | src/observer/sql/optimizer/comparison_simplification_rule.cpp:19-35 | folding a comparison of constants keeps its value |
| `NormalForm.ConstantsAreFolded` | src/observer/sql/optimizer/comparison_simplification_rule.cpp:19-35 | a comparison of two values is folded, whatever the operator and the values, and a change is reported |
| `NormalForm.QuietRewriting` | src/observer/sql/optimizer/expression_rewriter.cpp:61-137 | at any depth, without constants in conjunctions: a rewriting that reports no change has made none, and no two values are compared anywhere |
| `RewriteMeaning.IntendedRewriteKeepsMeaning` | src/observer/sql/optimizer/expression_rewriter.cpp:61-137 | with the intended rule, rewriting keeps the truth of every well-typed expression of any nesting on every row |
| `RewriteMeaning.FlatRewriteSettles` | src/observer/sql/optimizer/expression_rewriter.cpp:61-137 | one rewriting folds a generated WHERE clause, the second leaves nothing to simplify |
| `RewriteMeaning.FlatRewriteKeepsOutcome` | src/observer/sql/optimizer/expression_rewriter.cpp:61-137 | for either rule, each rewriting keeps what the clause will come to |
| `RewriteMisfire.OutcomeExact` | src/observer/sql/optimizer/conjunction_simplification_rule.cpp:50-66 | row by row, the rule as written gives the truth of the clause exactly unless it misfires and the condition it keeps does not have the deciding value |
| `RewriteMisfire.HarmlessIsRight` | src/observer/sql/optimizer/conjunction_simplification_rule.cpp:50-66 | a clause that does not misfire, or whose kept condition has the deciding truth whatever the data, keeps its meaning on every row of every database |
| `RewriteMisfire.MisfireIsVisible` | src/observer/sql/optimizer/conjunction_simplification_rule.cpp:50-66 | every other misfire is wrong in some database with the same comparison and truth of values |
| `RewriteMisfire.RightIffHarmless` | src/observer/sql/optimizer/conjunction_simplification_rule.cpp:50-66 | for given comparison and truth of values: the rule is right in all databases if and only if the clause is harmless |
| `RewriteMisfire.NullIsHarmless` | src/observer/sql/optimizer/conjunction_simplification_rule.cpp:50-66 | `a > NULL AND 1 = 2` misfires and is right all the same, comparison with NULL being false |
| `RewriteMisfire.IntendedOutcome` | src/observer/sql/optimizer/conjunction_simplification_rule.cpp:50-66 | the intended rule is right for every clause |
| `RewriteMisfire.MisfireExample` | src/observer/sql/optimizer/conjunction_simplification_rule.cpp:54-54 | `a > 3 AND 1 = 2` comes to `a > 3`; in the other order it does not misfire |
| `OptimizerCorrectness.ExpressionPassKeepsRows` | src/observer/sql/optimizer/expression_rewriter.cpp:26-59 | rewriting the expressions of a plan keeps its rows, read by the outcome of its filters |
| `OptimizerCorrectness.RemoveConstantKeepsRows` | src/observer/sql/optimizer/predicate_rewrite.cpp:18-58 | removing a constant predicate keeps the rows, also when an always-false one is replaced by no child |
| `OptimizerCorrectness.PushFiltersKeepsRows` | src/observer/sql/optimizer/predicate_pushdown_rewriter.cpp:20-65 | pushing conditions into the table-get below keeps the rows, and the table-get had none before |
| `OptimizerCorrectness.PushdownSettles` | src/observer/sql/optimizer/predicate_pushdown_rewriter.cpp:73-125 | after a pushdown nothing pushable is left in what is kept |
| `OptimizerCorrectness.PassKeepsRows` | src/observer/sql/optimizer/rewriter.cpp:28-64 | one pass over the plan tree keeps the rows in their order and settles every filter |
| `OptimizerCorrectness.PassLosesNoFilter` | src/observer/sql/optimizer/predicate_pushdown_rewriter.cpp:60-63 | no pass calls `set_predicates` on a table-get that has predicates |
| `OptimizerCorrectness.FixpointKeepsRows` | src/observer/sql/optimizer/optimize_stage.cpp:118-133 | the whole fixpoint keeps the rows and loses no filter; in the result the filters mean what they say |
| `Plans.Pass` | src/observer/sql/optimizer/rewriter.cpp:28-64 | a pass never grows the plan, and shrinks it when it reports a change: the fixpoint terminates |
| `Statements.CreatePlan` | src/observer/sql/optimizer/logical_plan_generator.cpp:93-157 | the generator loops build left-deep joins, one flat conjunction and the operators above; their rows are those of `GeneratedRows` |
| `OptimizeStage.GetExprsCanPushdown` | src/observer/sql/optimizer/predicate_pushdown_rewriter.cpp:73-125 | the erasing recursion computes what is kept and what is pushed |
| `OptimizeStage.RewritePredicate` | src/observer/sql/optimizer/predicate_rewrite.cpp:18-58 | the rule computes `RemoveConstant` |
| `OptimizeStage.PushdownPredicate` | src/observer/sql/optimizer/predicate_pushdown_rewriter.cpp:20-65 | the rule computes `PushFilters`, a true constant standing in when everything was pushed |
| `OptimizeStage.RewriteOperator` | src/observer/sql/optimizer/rewriter.cpp:28-64 | the three rules and the recursion compute `Pass` |
| `OptimizeStage.Rewrite` | src/observer/sql/optimizer/optimize_stage.cpp:118-133 | the do-while loop terminates with the fixpoint |
| `Statements.GeneratedShape` | src/observer/sql/optimizer/logical_plan_generator.cpp:159-252 | every generated plan has the shape the preservation theorems start from |
| `Statements.OptimizedPlanYields` | src/observer/sql/optimizer/optimize_stage.cpp:118-133 | for every statement and database, the optimized plan yields the rows of the generated one in order if the WHERE clause is harmless; in any case the rows of the clause as rewritten, and no filter is lost |
| `Statements.KeepsRowsIffHarmless` | src/observer/sql/optimizer/optimize_stage.cpp:118-133 | for given comparison and truth of values: the optimizer keeps the rows of a statement in all databases if and only if its WHERE clause is harmless |
| `Statements.IntendedOptimizerKeepsRows` | src/observer/sql/optimizer/optimize_stage.cpp:118-133 | with the intended rule the optimizer keeps the rows of every statement |
| `RowsOfStatements.GeneratedRows` | src/observer/sql/optimizer/logical_plan_generator.cpp:93-157 | the generated plan of every statement yields the left-major product of its tables, those rows that meet all or some of the conditions, and what the other operators make of them, the innermost first |
| `RowsOfStatements.ProductAt` | src/observer/sql/optimizer/logical_plan_generator.cpp:93-115 | pair j of row i stands at place i * n + j of the product, n the rows on the right |
| `RowsOfStatements.PlanStatement` | src/observer/sql/optimizer/logical_plan_generator.cpp:93-157 | the plan that is built yields the rows of the statement, in every database |
| `RowsOfStatements.OptimizedRows` | src/observer/sql/optimizer/optimize_stage.cpp:118-133 | so does the optimized plan, when the WHERE clause is harmless, and with the intended rule always |
| `NormalForm.OptimizedIsNormal` | src/observer/sql/optimizer/optimize_stage.cpp:118-133 | the optimized plan of every statement: no expression in it compares two values, no conjunction has a constant or a single condition, no predicate is a value, no equality with a column that has to hold is left above its table, the filters pushed are such equalities; and one more pass changes nothing and says so |
| `Operators.Operator.Open` | src/observer/sql/operator/join_physical_operator.cpp:19-35 | opening, in any state, makes all rows of the operator the remaining ones |
| `Operators.Operator.Next` | src/observer/sql/operator/join_physical_operator.cpp:37-65 | the first remaining row becomes the current tuple and the others remain, or end of rows is reported and none remain |
| `Operators.Operator.ScanNext` | src/observer/sql/operator/table_scan_physical_operator.cpp:44-87 | the same for a scan that skips rows failing its predicates |
| `Operators.Operator.Passes` | src/observer/sql/operator/table_scan_physical_operator.cpp:104-123 | a row passes exactly if all pushed predicates hold |
| `Operators.Operator.FilterNext` | src/observer/sql/operator/predicate_physical_operator.cpp:48-80 | the same for a predicate operator |
| `Operators.Operator.JoinNext` | src/observer/sql/operator/join_physical_operator.cpp:37-65 | the same for a join: the remaining rows are the rest of the round and the cross product of the remaining left rows |
| `Operators.Operator.NextRound` | src/observer/sql/operator/join_physical_operator.cpp:56-64 | ending as soon as a round has no right row is correct, because then no round has one |
| `Operators.Operator.RightNext` | src/observer/sql/operator/join_physical_operator.cpp:105-137 | re-opening the right child at a new round yields all its rows again; the left child is untouched |
| `Operators.Operator.Close` | src/observer/sql/operator/join_physical_operator.cpp:67-83 | closing a join closes the children that are open and keeps it re-openable |
| `Operators.Drain` | src/observer/sql/operator/join_physical_operator.cpp:19-137 | `open` and `next` until the end yield exactly all rows in order, from any state |
| `Operators.Create` | src/observer/sql/optimizer/physical_plan_generator.cpp:58-110 | the operators built for a plan yield the rows of the plan |
| `Operators.Execute` | src/observer/sql/operator/join_physical_operator.cpp:19-137 | a left-deep join of any depth yields the cross product in left-major order, and again when re-opened half-way |
| `LruCaches.LruCache.Get` | deps/common/lang/lru_cache.h:97-108 | returns the value of the key and makes its entry the most recent; a miss changes nothing |
| `LruCaches.LruCache.Put` | deps/common/lang/lru_cache.h:110-122 | the key has the value in the most recent entry; other entries keep value and order |
| `LruCaches.LruCache.Remove` | deps/common/lang/lru_cache.h:124-130 | the entry goes; the others keep value and order |
| `LruCaches.LruCache.Touch` | deps/common/lang/lru_cache.h:158-179 | unlinking and relinking moves the node to the front of a list that stays doubly linked |
| `LruCaches.LruCache.Push` | deps/common/lang/lru_cache.h:181-196 | a new node goes to the front, also of an empty list |
| `LruCaches.LruCache.Unlink` | deps/common/lang/lru_cache.h:198-217 | the node leaves list and lookup set, front and tail are adjusted |
| `LruCaches.LruCache.Foreach` | deps/common/lang/lru_cache.h:138-146 | the visitor sees the entries from the most recent on, up to the first it refuses |
| `LruCaches.LruCache.ForeachReverse` | deps/common/lang/lru_cache.h:148-156 | the visitor sees the reverse |
| `LruCaches.ReverseAt` | deps/common/lang/lru_cache.h:148-156 | entry i of the reverse is entry i from the end |
| `LruCaches.UpToFirstRefused` | deps/common/lang/lru_cache.h:138-156 | the visitor is called with the entries up to the first that it refuses, or all |
| `LruCaches.LruCache.KeysAreDistinct` | deps/common/lang/lru_cache.h:97-154 | the lookup set finds exactly the keys of the list, each once |
| `LruCaches.CacheHistory` | deps/common/lang/lru_cache.h:97-154 | after any history of get, put and remove: one entry a key, ordered by last use, and the value is the last one put and not removed |
| `RingBuffers.ReadableIsOldest` | src/observer/net/ring_buffer.h:91-91 | the piece that `buffer` hands out is the oldest part of the queue and empty only if the queue is, around the end of the array and when full |
| `RingBuffers.WritableIsFree` | src/observer/net/ring_buffer.cpp:98-99 | what one copy may fill is free unless the buffer is full, when the formula says otherwise |
| `RingBuffers.WindowGrows` | src/observer/net/ring_buffer.cpp:102-105 | bytes copied at the write position join the end of the queue, across the wrap-around |
| `RingBuffers.RingBuffer.Buffer` | src/observer/net/ring_buffer.cpp:54-71 | the oldest bytes: all of them, or those up to the end of the array |
| `RingBuffers.RingBuffer.Forward` | src/observer/net/ring_buffer.cpp:73-86 | drops the oldest bytes, or refuses sizes that are not positive or too large and changes nothing |
| `RingBuffers.RingBuffer.Read` | src/observer/net/ring_buffer.cpp:30-52 | reads min(size, stored) bytes; what was read and what is left are the old contents |
| `RingBuffers.RingBuffer.Write` | src/observer/net/ring_buffer.cpp:88-109 | appends min(size, free) bytes of the data, in order |
| `BufferedWriters.BufferedWriter.Push` | src/observer/net/buffered_writer.cpp:111-122 | asks again until an answer is final, a failure or something taken: -1 exactly if the first final answer is a failure; the answers up to that one are used up |
| `BufferedWriters.BufferedWriter.PushOldest` | src/observer/net/buffered_writer.cpp:103-126 | the bytes taken leave the buffer, in order; on failure, which needs a failure of the descriptor, it stays as it is |
| `BufferedWriters.BufferedWriter.FlushInternal` | src/observer/net/buffered_writer.cpp:95-129 | keeps sent plus buffered bytes equal to the accepted ones; success means the buffer is empty or enough has gone out, by the last write and not before; without a failure of the descriptor it succeeds |
| `BufferedWriters.BufferedWriter.Flush` | src/observer/net/buffered_writer.cpp:82-93 | success means everything accepted has been sent; without a failure of the descriptor it succeeds |
| `BufferedWriters.BufferedWriter.Write` | src/observer/net/buffered_writer.cpp:46-60 | accepts as many bytes as fit, of a full buffer as many as fit after its flush; sent plus buffered bytes are the accepted ones; with room left nothing is sent, and without a failure of the descriptor it succeeds |
| `BufferedWriters.BufferedWriter.WriteN` | src/observer/net/buffered_writer.cpp:62-80 | a bad descriptor is reported; otherwise success accepts all the data, failure a prefix; without a failure of the descriptor it succeeds |
| `BufferedWriters.BufferedWriter.WriteToNothing` | src/observer/net/buffered_writer.cpp:46-80 | the one case in which the loop of `writen` does not end: with capacity 0, each call of `write` succeeds and accepts nothing |
| `BufferedWriters.BufferedWriter.Close` | src/observer/net/buffered_writer.cpp:30-44 | closing flushes first and leaves the descriptor set when that fails, which it does not without a failure of the descriptor |
| `BufferedWriters.BufferedWriter.Clear` | src/observer/net/buffered_writer.cpp:131-139 | drops what has not been sent |
| `Md5.Context.Update` | deps/common/math/md5.cpp:109-139 | for any split of a message: state is the chain over all whole blocks, the buffer holds the rest, `count` is 8 * length modulo 2^64 |
| `Md5.Context.Blocks` | deps/common/math/md5.cpp:130-131 | the block loop chains exactly the whole blocks of the input |
| `Md5.Context.Count` | deps/common/math/md5.cpp:116-119 | the two-word addition with carry |
| `Md5.CountAdds` | deps/common/math/md5.cpp:116-119 | adding modulo 2^32 with the overflow test is adding 8 * length modulo 2^64 |
| `Md5.IndexOfCount` | deps/common/math/md5.cpp:114-114 | the buffer index is the message length modulo 64 |
| `Md5.GuardExact` | deps/common/math/md5.cpp:130-130 | the 32-bit guard of the block loop stops at the last block exactly under `GuardStops`, which holds up to 2^32 - 64 bytes |
| `Md5.Final` | deps/common/math/md5.cpp:145-169 | the digest is that of the message with the padding and length of sections 3.1 and 3.2 of RFC 1321; the context is wiped |
| `Md5.PadLengthExact` | deps/common/math/md5.cpp:156-157 | the padding is the one length from 1 to 64 that leaves 8 bytes to the block boundary |
| `Md5.PaddingBits` | deps/common/math/md5.cpp:44-44 | the padding is the bit 1, the highest of its first byte, and then bits 0 |
| `Md5.InitialBytes` | deps/common/math/md5.cpp:99-103 | the initial words are those of section 3.3 of RFC 1321, low-order byte first |
| `Md5.PaddedIsWhole` | deps/common/math/md5.cpp:153-161 | a padded message consists of whole blocks |
| `Md5.ChainContinues` | deps/common/math/md5.cpp:123-138 | feeding more continues the chain from the rest, for every split |
| `Md5.CountEncoded` | deps/common/math/md5.cpp:151-151 | encoding the two words is the 64-bit length, low-order byte first |
| `Md5.Encode` | deps/common/math/md5.cpp:268-278 | the loop writes the little-endian bytes of the words and nothing else |
| `Md5.Decode` | deps/common/math/md5.cpp:284-291 | the loop writes the words of the bytes and nothing else |
| `Md5.DecodeEncode` | deps/common/math/md5.cpp:268-291 | decoding what was encoded gives the words back |
| `Md5.EncodeDecode` | deps/common/math/md5.cpp:268-291 | encoding what was decoded gives the bytes back |
| `Md5.Md5Buffer` | deps/common/math/md5.cpp:330-338 | one call gives the digest of the bytes, whatever their number |
| `Md5.Md5File` | deps/common/math/md5.cpp:340-359 | reading in pieces gives the digest of the bytes up to the first empty read |
| `Calendar.JulianDateCounts` | deps/common/time/datetime.h:233-239 | `julian_date` is the day count in which each month starts when the one before is over, also for months below 1 and days outside the month |
| `Calendar.MarchIsMonthStart` | deps/common/time/datetime.h:233-239 | the formula satisfies the month-by-month recurrence anchored at 1 January 1970 |
| `Calendar.YmdOfJulian` | deps/common/time/datetime.h:242-253 | `get_ymd` finds every valid date from 1 March 4801 BC on |
| `Calendar.JulianOfYmd` | deps/common/time/datetime.h:242-253 | `get_ymd` of every day number from -32044 on is a valid date with that number |
| `Calendar.LengthExact` | deps/common/time/datetime.cpp:238-256 | `max_day_in_month_for` is the length of the month exactly for months 1 to 12, for month -11, and for month -10 unless the year before is a leap year |
| `Calendar.LeapByRem` | deps/common/time/datetime.cpp:250-250 | the leap-year test with truncating remainders is the Gregorian one, for negative years too |
| `Calendar.CarryDays` | deps/common/time/datetime.cpp:217-232 | the loop terminates for every month and day, with the result of `Carry` |
| `Calendar.CarryEnds` | deps/common/time/datetime.cpp:217-232 | it ends on a day of its month, as the code counts them |
| `Calendar.CarryExact` | deps/common/time/datetime.cpp:217-232 | it ends on the day it is given if and only if it passes no month of wrong length; otherwise it errs in its direction |
| `Calendar.HonestWithinYear` | deps/common/time/datetime.cpp:218-220 | starting in months 1 to 12 that is: if and only if the day asked for is not before 1 January of the year |
| `Calendar.NewYearExample` | deps/common/time/datetime.cpp:219-219 | the day before 1 January 1970 comes out three days early |
| `DateTimes.HmsRoundTrip` | deps/common/time/datetime.h:109-116 | `get_hms` and `make_hms` are inverses |
| `DateTimes.AddClock` | deps/common/time/datetime.cpp:190-203 | the carries through seconds, minutes and hours conserve the total |
| `DateTimes.DateTime.AddDurationDateTime` | deps/common/time/datetime.cpp:164-236 | the date is the day asked for, in true month lengths, if and only if `ComesRight`, and always for non-negative durations; the clock total is conserved, milliseconds apart |
| `DateTimes.ReachedIffRight` | deps/common/time/datetime.cpp:205-232 | for every date and duration: cutting the day of the month and carrying days come to the day asked for if and only if no month of wrong length is passed, or the day was cut to 28 in a longer month that is then passed, from its last day at least, and no other month of wrong length is |
| `DateTimes.CutExample` | deps/common/time/datetime.cpp:206-208 | for example: 31 March less four months comes to 28 November, which has 30 days |
| `DateTimes.MadeUpExample` | deps/common/time/datetime.cpp:206-232 | for example: 31 March less three months plus five days comes to 5 January, rightly, over a December of 28 days |
| `DateTimes.NothingNegative` | deps/common/time/datetime.cpp:182-235 | a duration without negative parts comes to the day asked for |
| `DateTimes.ClampIsNearest` | deps/common/time/datetime.cpp:206-214 | cutting the day of the month gives the nearest day of the month |
| `DateTimes.TimeTCounts` | deps/common/time/datetime.h:120-120 | `to_time_t` counts the seconds since 1 January 1970, 0:00 |
| `DateTimes.DateTime.AddSeconds` | deps/common/time/datetime.h:170-185 | the total time is conserved exactly below two days of carry; a sum of exactly one day is left unnormalised |
| `TimerQueues.SubTimeval` | deps/common/seda/timer_stage.cpp:32-42 | exact in microseconds, normal for normal arguments |
| `TimerQueues.AddTimeval` | deps/common/seda/timer_stage.cpp:44-54 | exact in microseconds, normal for non-negative microseconds |
| `TimerQueues.RealtimeToMonotonic` | deps/common/seda/timer_stage.cpp:56-74 | keeps the distance from now |
| `TimerQueues.When` | deps/common/seda/timer_stage.cpp:144-162 | the relative constructor gives a normal time that much later |
| `TimerQueues.LessIsTotalOrder` | deps/common/seda/timer_stage.cpp:121-128 | the token order is a strict total order |
| `TimerQueues.BeforeIsEarlier` | deps/common/seda/timer_stage.cpp:29-30 | on normal times the two comparison macros order by microseconds |
| `TimerQueues.DueExact` | deps/common/seda/timer_stage.cpp:427-434 | the prefix that a check takes is exactly the timers whose time has come |
| `TimerQueues.TimerStage.RegisterTimer` | deps/common/seda/timer_stage.cpp:335-358 | inserts in order, counts, and asks for a check exactly if the timer is before all others |
| `TimerQueues.TimerStage.CancelTimer` | deps/common/seda/timer_stage.cpp:369-383 | removes the timer with the token, if there is one, and reports whether there was |
| `TimerQueues.TimerStage.FireDue` | deps/common/seda/timer_stage.cpp:426-451 | both loops: the due timers are done in order, the others stay, the count follows |
| `TimerProtocol.StepKeepsInv` | deps/common/seda/timer_stage.cpp:335-488 | every critical region of callers and timer thread keeps the invariant; the uniqueness assertion never fails |
| `TimerProtocol.ExactlyOneFate` | deps/common/seda/timer_stage.cpp:335-391 | in every reachable state each registered timer is pending, fired or cancelled, exactly one of these and once; `num_events_` is the queue size |
| `TimerProtocol.NoneFiresEarly` | deps/common/seda/timer_stage.cpp:430-434 | in every reachable state no fired timer was fired before its time |
| `TimerProtocol.CheckFiresAllDue` | deps/common/seda/timer_stage.cpp:426-451 | a check fires exactly all due timers, in order of time and nonce |
| `TimerProtocol.NoOversleeping` | deps/common/seda/timer_stage.cpp:466-482 | for each pending timer the thread is awake, or a signal is owed, or its wait ends by then, unless shut down |
| `TimerProtocol.SleepsUntilEarliest` | deps/common/seda/timer_stage.cpp:466-482 | after a check the thread sleeps until the time of an earliest pending timer, without timers for good, after shutdown not at all |
| `TimerProtocol.PendingInOrder` | deps/common/seda/timer_stage.cpp:121-128 | pending timers are in the order of their times, and of equal times in the order in which their tokens were made |
| `TimerProtocol.RegisterTriggers` | deps/common/seda/timer_stage.cpp:345-358 | registering calls for a signal exactly if the timer is before all that are pending |
| `TimerProtocol.TimersAreTaken` | deps/common/seda/timer_stage.cpp:335-358 | a timer can always be registered, and is pending then |
| `TimerProtocol.PendingCanFire` | deps/common/seda/timer_stage.cpp:426-451 | a pending timer can fire once its time has come, unless the thread has left |
| `TimerProtocol.ShutdownIsSeen` | deps/common/seda/timer_stage.cpp:293-300 | after shutdown the thread does not sleep and its next check is the last |
| `TimerProtocol.CancelIsExact` | deps/common/seda/timer_stage.cpp:369-391 | cancelling takes exactly the timer of the token and succeeds exactly for a pending one |
| `TimerProtocol.FateIsFinal` | deps/common/seda/timer_stage.cpp:335-488 | fired stays fired and cancelled stays cancelled, over all later runs |
| `SharedMutexes.RecursiveSharedMutex.TurnShared` | deps/common/lang/mutex.cpp:384-401 | one turn of `lock_shared` and `try_lock_shared` on the counters |
| `SharedMutexes.RecursiveSharedMutex.UnlockShared` | deps/common/lang/mutex.cpp:403-410 | counters and notification of `unlock_shared` |
| `SharedMutexes.RecursiveSharedMutex.Turn` | deps/common/lang/mutex.cpp:412-425 | one turn of `lock`: recursion by the owner, waiting, or entering; who gets in is `LockGetsIn` |
| `SharedMutexes.RecursiveSharedMutex.Unlock` | deps/common/lang/mutex.cpp:427-441 | counters and notifications of `unlock` |
| `SharedMutexes.StepKeepsInv` | deps/common/lang/mutex.cpp:384-441 | every step of any number of threads keeps counters and wake-ups right |
| `SharedMutexes.WriterIsAlone` | deps/common/lang/mutex.cpp:384-441 | in every reachable state a writer excludes all readers and other writers, and `recursive_count_` is its nesting depth |
| `SharedMutexes.ReadersCounted` | deps/common/lang/mutex.cpp:384-441 | without a writer the exclusive count is 0, there is no owner, and the shared count is the read locks held |
| `SharedMutexes.NobodyIsForgotten` | deps/common/lang/mutex.cpp:436-439 | without a writer no reader sleeps unsignalled; on a free lock with waiting writers one has been signalled and gets in |
| `SharedMutexes.LockGetsIn` | deps/common/lang/mutex.cpp:412-425 | in every reachable state: `lock` gets in exactly if the thread holds a write lock already, when only the recursion count changes, or no thread holds any lock; otherwise it sleeps |
| `SharedMutexes.LockSharedGetsIn` | deps/common/lang/mutex.cpp:384-401 | `lock_shared` and `try_lock_shared` get in exactly if no thread holds a write lock; otherwise the first sleeps and the second changes nothing |
| `SharedMutexes.UnlockWakes` | deps/common/lang/mutex.cpp:427-441 | `unlock` of a nested lock wakes nobody up; the last one frees the lock and wakes all sleeping readers and a sleeping writer |
| `SharedMutexes.UnlockSharedWakes` | deps/common/lang/mutex.cpp:403-410 | `unlock_shared` wakes a sleeping writer up exactly if the lock is free then, and nobody else |
| `LockTraces.LockTrace.DeadlockCheck` | deps/common/lang/mutex.cpp:97-129 | reports a deadlock if and only if the caller locks its own non-recursive mutex again or the chain of waits comes back to it within `mMaxBlockTids` hops of holders |
| `LockTraces.LockTrace.DeadlockCheckFrom` | deps/common/lang/mutex.cpp:68-95 | the recursion is exact for the hops that are left |
| `LockTraces.LockTrace.CheckLockTimes` | deps/common/lang/mutex.cpp:131-162 | one more wait is counted, many are reported by the count before, and the warning about a mutex without a holder puts thread 0 on record |
| `LockTraces.LockTrace.Check` | deps/common/lang/mutex.cpp:164-174 | the wait is recorded and counted; the report is exact for the maps with the wait |
| `LockTraces.CountKeepsConsistent` | deps/common/lang/mutex.cpp:131-162 | counting keeps `mLocks` and `mOwnLocks` consistent if and only if the mutex is not crowded: too many waits and no holder on record |
| `LockTraces.LockTrace.InsertLock` | deps/common/lang/mutex.cpp:176-195 | the new maps and count; an entry of another holder is not overwritten |
| `LockTraces.LockTrace.Unlock` | deps/common/lang/mutex.cpp:217-227 | the new maps |
| `LockTraces.LockTrace.TryLock` | deps/common/lang/mutex.cpp:205-215 | records the lock only if no holder is on record |
| `LockTraces.InsertKeepsConsistent` | deps/common/lang/mutex.cpp:176-186 | `insertLock` keeps `mLocks` and `mOwnLocks` consistent if and only if no other thread is on record as the holder |
| `LockTraces.UnlockKeepsConsistent` | deps/common/lang/mutex.cpp:217-227 | so does `unlock`, under the same condition |
| `LockTraces.HistoryIsConsistent` | deps/common/lang/mutex.cpp:131-227 | the maps agree throughout a history if and only if nobody locks or releases a mutex that another holds on record and no check finds one crowded |
| `LockTraces.WaitsAreBlocked` | deps/common/lang/mutex.cpp:99-99 | after every history in which blocked threads wait: the recorded waits are exactly the blocked threads if and only if no last try of a thread is a try-lock in vain |
| `LockTraces.HopIsReal` | deps/common/lang/mutex.cpp:68-95 | a hop of the chain is reached through really blocked threads if and only if no wait on the way is stale |
| `LockTraces.ReportIsReal` | deps/common/lang/mutex.cpp:97-129 | a report about other threads is about really blocked ones if and only if the chain comes back without a stale wait |
| `LockTraces.RecordsAreReal` | deps/common/lang/mutex.cpp:176-227 | after every legal history: the holders on record are the real ones if and only if no recursive mutex is half unlocked and no check has found a mutex crowded since it was last unlocked |
| `LockTraces.ReportIsExact` | deps/common/lang/mutex.cpp:97-129 | when no record is wrong, a deadlock is reported if and only if there is one among the real holders and blocked threads |
| `LockTraces.MissedDeadlock` | deps/common/lang/mutex.cpp:217-227 | for example: after one of two unlocks of a recursive mutex, a deadlock through it is not reported |
| `LockTraces.StaleWait` | deps/common/lang/mutex.cpp:164-174 | for example: after a try-lock in vain, a deadlock is reported although nobody is blocked |
| `LockTraces.Relocked` | deps/common/lang/mutex.cpp:97-116 | for example: a thread that locks its own mutex again is reported exactly if the mutex is not recursive |
| `LockTraces.CrowdedCheck` | deps/common/lang/mutex.cpp:145-146 | for example, for every limit: tries in vain up to it and the release, and the next holder of the mutex is not recorded |
| `LockTraces.UnlockRace` | deps/common/lang/mutex.h:180-189 | a lock taken between the unlock and its record leaves the maps inconsistent |
| `OrderBy.CompareStringExact` | deps/common/lang/comparator.cpp:50-68 | `compare_string` agrees with the order of the bytes if and only if neither string continues the other with a byte of 128 or more; there it says the opposite |
| `OrderBy.FloatsApart` | deps/common/lang/comparator.cpp:36-48 | two floats are told apart exactly if they are more than a millionth apart |
| `OrderBy.CompareValueExact` | src/observer/sql/parser/value.cpp:384-446 | on sortable values `compare_value` is null first, then the order of the type: numbers, dates, booleans, floats and both kinds of strings |
| `OrderBy.ValueOrderIsTotal` | src/observer/sql/parser/value.cpp:384-446 | the reference order is total on nulls and values of one type, and only equal values tie |
| `OrderBy.CompRule` | src/observer/sql/operator/order_physical_operator.h:29-65 | the loop over the sort keys computes `Answer`, with the values of the turn before, null at first, where a cell is not found; with all cells, that is `RowLess`, in which the first key that compares decides |
| `OrderBy.AnswerIsRowLess` | src/observer/sql/operator/order_physical_operator.h:29-65 | rows with all their cells are compared by those cells alone, whatever values were left over |
| `OrderBy.AnswerExact` | src/observer/sql/operator/order_physical_operator.h:29-65 | with cells that may be missing, each compared as the last one found before, or null: the first key whose values are told apart decides |
| `OrderBy.FirstDifferenceDecides` | src/observer/sql/operator/order_physical_operator.h:33-62 | less means: the first key that differs decides, in its direction |
| `OrderBy.RowLessIsStrictWeakOrder` | src/observer/sql/operator/order_physical_operator.h:29-65 | a strict weak order on every set of rows that are sortable in pairs, with any keys and directions |
| `OrderBy.UnsortableRowsBreak` | src/observer/sql/operator/order_physical_operator.h:29-65 | the other half: every two rows that are not sortable stand in a set of three on which the comparator is no strict weak order |
| `OrderBy.HighCircle` | deps/common/lang/comparator.cpp:60-66 | whenever a string continues another with a byte of 128 or more, a third row closes a circle of rows each less than the next |
| `OrderBy.MixedTypesBreak` | src/observer/sql/operator/order_physical_operator.h:55-61 | whenever the first difference is between values of different types, a third row breaks the order |
| `OrderBy.CloseNumbersBreak` | deps/common/lang/comparator.cpp:36-48 | whenever it is between floats at most EPSILON apart, and the later keys do not put the rows in the order of the floats, a third row breaks the order |
| `OrderBy.Between` | deps/common/lang/comparator.cpp:50-68 | for all such strings a third one stands after the first and before the second, and the second before the first |
| `OrderBy.AsciiIsSortable` | deps/common/lang/comparator.cpp:50-68 | ASCII strings are sortable |
| `OrderBy.HighBytesGoRound` | deps/common/lang/comparator.cpp:60-66 | for example: "a", "ab" and "a" with the byte 195 are each less than the next in a circle |
| `OrderBy.MixedTypesDoNotTie` | src/observer/sql/operator/order_physical_operator.h:55-61 | for example: two numbers tie with any string and not with each other |
| `OrderBy.FloatsDoNotTie` | deps/common/lang/comparator.cpp:36-48 | for example: a float ties with those EPSILON before and after it, and these do not tie |

## Left out

Not modelled, or modelled with less than the code does:

- Protocol steps: `kill_threads` and `disconnect` are not called by the pool's own workers, handlers return, and each stage is connected and disconnected by one controlling thread. `initialize` succeeds. Spurious wake-ups of the workers and of a waiting `disconnect` are steps; those of `thread_cond_`, on which `kill_threads` waits without a loop, are not.
- `add_threads` is one step in which every thread is created; a pool has one stage for kills, and the tracing of events through their stages is left out.
- SedaStage.Stage.Disconnect: the wait itself is in the state machine; the methods are what `disconnect` does before it and after a wake-up. Clearing the list of next stages and the hooks of derived stages are left out.
- Callback stacks of stage events (deps/common/seda/stage_event.cpp, callback.cpp): a plain stack whose properties would be easy members.
- Metrics, INI files, logging, sockets, libevent, the MySQL protocol, parsing and statement resolution: plumbing, or not among the files.
- Storage: a table is a fixed row sequence, the same at each open. Index selection and index scans are left out.
- Plans: projection, aggregation, ordering, update and delete are functions of their input's rows. Statements without such an operator on top do not occur.
- Expressions: evaluation errors are left out by assuming that every expression has a value; IN, EXISTS, subqueries, value lists and arithmetic are functions of the row, so subquery execution and parent tuples are left out.
- Value comparison in filters is an arbitrary function: floats, LIKE, date coercion and comparisons across types are left out.
- RewriteMisfire.OutcomeExact: about clauses of the form the plan generator builds, a flat conjunction; nested conjunctions are covered for the intended rule only.
- Operators.Create: every table-get becomes a table scan; choosing an index for it is left out with index scans.
- SedaProgress.KillCanReturn: a run exists; that the scheduler of the machine chooses such a run, and that handlers do not add events for ever, is not promised.
- Operators.Operator.Next: error codes other than the end of rows are left out.
- Ordering: `std::sort` and the operator around it are left out; its `next` reports success once on empty input. Strings hold no zero byte.
- OrderBy.CompareValueExact: floats are real numbers, without rounding, infinities and NaN.
- LruCaches.LruCache.Get: the lookup set is a map from key to node; casting a key pointer to a node pointer is left out, and so is the unfinished `pop`.
- BufferedWriters.BufferedWriter.Push: the descriptor asks for a retry only finitely often.
- BufferedWriters.BufferedWriter.WriteN: for a valid descriptor and something to write, of a positive capacity; otherwise the loop does not end, see `WriteToNothing`.
- Md5.Final: the block transform is a parameter.
- Calendar.JulianDateCounts: 32-bit overflow, which starts beyond the year 1,400,000, is left out, and `parse_duration` with it.
- DateTimes.DateTime.AddDurationDateTime: that the date is the day the code counts to holds from day -32044 on, 1 March 4801 BC, where `julian_date` is exact.
- TimerQueues.TimerStage.FireDue: the events that become done only enqueue, as the code's comment says; `uint32_t` and `uint64_t` counters do not wrap.
- TimerProtocol.ExactlyOneFate: after shutdown the thread does not fire the timers that are left, as in the code.
- LockTraces.LockTrace.DeadlockCheck: file names, line numbers and messages are left out.
- LockTraces.RecordsAreReal: a lock and its record are one step, and so are an unlock and its record; what a step between them does is `UnlockRace`. Lock calls that fail and the records of condition waits are left out.
- SharedMutexes.StepKeepsInv: locks are released only by threads that hold them. A reader that asks for the write lock, or a writer for a read lock, waits for itself; the code's comment rules the first out.
- Memory management throughout.
- Memory pool, string splitting, binary search, bitmap, random numbers: they would only add easy members.
