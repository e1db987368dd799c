# Parallel refactoring runs: candidate selection core

`parallelrun_refactoring.py` generates several candidate refactorings of an
architecture description (ADL) for each (system, requirement) task, runs them
in a worker pool, has each candidate validated and verified, and keeps the
candidate that changes the system's execution paths the least. This project
models the deterministic decisions inside that orchestration as pure Dafny
functions and proves what they promise:

- `Bounds` — the size guards of one attempt: the candidate ADL is cut at
  10·1024·1024 characters with `"\n... [truncated]"` appended, the
  diagnostic `"Execution Error: " + str(e)` is cut at 1000 characters with
  `"... [truncated]"` appended.
- `Executor` — `run_one_sample`: what an attempt returns when the refactoring
  script finishes (its `Final_VV_result`, or `"No result produced"`, and its
  bounded `current_ADL`) and when it raises (the bounded diagnostic, no ADL).
- `Coordinator` — the run arguments for run_ids 1..N, the sentinel batches
  (`"Timeout Error"` and `"Pool Error: " + msg`, no ADL, elapsed 0.0), the
  pool's normal collection and the sequential fallback.
- `PathDiff` — `get_system_execution_paths_differences`: paths added plus
  paths removed, over the distinct paths of each list.
- `Selection` — the per-result review (five-field row; verdict on the
  candidate ADL when there is one, the attempt's own result otherwise), the
  validation-and-verification filter on the prefix
  `"Both Validation and Verification:"`, the index-aligned pool of rows and
  path changes, and `index(min(...))` selection.
- `Pipeline` — one task end to end, and the loop over tasks.

The collaborators are parameters: `load_adl`, `preprocess_with_adl` and
`validation_verification` are the function fields of `Selection.Helpers`; what
the refactoring script does on a run_id is a `ScriptRun` (an outcome plus the
elapsed time) given by a function of the run_id; what the pool did with a
batch is a `Coordinator.Wait` value. Elapsed times are `real`s passed through
unchanged. Strings are Dafny strings of Unicode scalar values, so lengths are
Python's `len` on `str`.

## Model

| member | source | states |
|---|---|---|
| Bounds.Cap | parallelrun_refactoring.py:90-92 | a text within the limit is unchanged; a longer one keeps exactly its first `limit` characters followed by the marker, so its length is `limit` plus the marker's |
| Bounds.CapIdempotent | parallelrun_refactoring.py:90-92 | cutting an already cut text gives the same text back |
| Bounds.CapAdl | parallelrun_refactoring.py:90-92 | an absent ADL stays absent, an ADL of at most 10·1024·1024 characters (empty included) is unchanged, a longer one becomes its first 10·1024·1024 characters followed by `"\n... [truncated]"` |
| Bounds.CapAdlLength | parallelrun_refactoring.py:90-92 | a cut ADL is exactly 10·1024·1024 + 16 characters long |
| Bounds.ErrorMessage | parallelrun_refactoring.py:113-116 | the diagnostic always starts with `"Execution Error: "`, is at most 1015 characters, is the full message when that fits in 1000 characters and otherwise its first 1000 characters followed by `"... [truncated]"` |
| Executor.RunOneSample | parallelrun_refactoring.py:65-118 | system, requirement, run_id and elapsed pass through; a finished script yields its verdict (or `"No result produced"`) and an ADL present exactly when the script left one, bounded and unchanged when small; a raising script yields no ADL and the diagnostic `ErrorMessage(str(e))`; a finished script's ADL is exactly `CapAdl` of what it left |
| Coordinator.ArgsList | parallelrun_refactoring.py:172-176 | exactly `numRuns` arguments for the task, the i-th with run_id i + 1 |
| Coordinator.FillBatch | parallelrun_refactoring.py:190-196 | one sentinel per argument, in order, with its system, requirement and run_id, the given text, no ADL and elapsed 0.0 |
| Coordinator.Dispatch | parallelrun_refactoring.py:183-186 | one result per argument, in argument order: the i-th is `run_one_sample` of the i-th argument, so it carries that argument's identifying fields and its attempt's elapsed time |
| Coordinator.CollectBatchAsWritten | parallelrun_refactoring.py:180-202 | the batch as written always has `numRuns` results |
| Coordinator.ExpiredWaitLoggedAsPoolError | parallelrun_refactoring.py:184-196 | as written, every row of a batch whose wait ran out reads `"Pool Error: "`, never `"Timeout Error"` |
| Coordinator.CollectBatch | parallelrun_refactoring.py:172-202 | exactly `numRuns` results with run_ids 1..numRuns in order; a timeout gives `"Timeout Error"` rows, a failed collection `"Pool Error: " + msg` rows, both with no ADL and elapsed 0.0; a collected batch or the sequential fallback gives `run_one_sample` of each run_id |
| Coordinator.FallbackMatchesPool | parallelrun_refactoring.py:197-202 | when the pool cannot be created, the sequential fallback yields exactly the results a collected pool run would |
| Coordinator.CollectBatchDiffersOnlyOnExpiry | parallelrun_refactoring.py:184-196 | the corrected batch agrees with the code as written on every pool outcome except an expired wait |
| PathDiff.CountDistinctNotInIsSetDifference | parallelrun_refactoring.py:132-137 | counting, along the list, the distinct paths of one list that the other lacks gives the size of the set difference |
| PathDiff.DistanceCountsAddedAndRemoved | parallelrun_refactoring.py:132-143 | the distance is the number of distinct paths only in the new list plus the number only in the original list |
| PathDiff.DistanceIsSymmetricDifference | parallelrun_refactoring.py:132-143 | the distance is the size of the union of both path sets minus the size of their intersection |
| PathDiff.DistanceSymmetric | parallelrun_refactoring.py:132-143 | swapping the versions does not change the distance |
| PathDiff.DistanceToSelfIsZero | parallelrun_refactoring.py:132-143 | a version is at distance 0 from itself |
| PathDiff.DistanceZeroIffSamePaths | parallelrun_refactoring.py:132-143 | the distance is 0 exactly when both lists hold the same set of paths |
| PathDiff.DistanceIgnoresOrder | parallelrun_refactoring.py:132-133 | reordering either list leaves the distance unchanged |
| PathDiff.DuplicatePathsCollapse | parallelrun_refactoring.py:132-133 | listing a path again leaves the distance unchanged |
| PathDiff.AddingFreshPathCostsOne | parallelrun_refactoring.py:136-143 | a path in neither version, added to the new one, raises the distance by exactly one |
| PathDiff.DistanceTriangle | parallelrun_refactoring.py:132-143 | the direct distance is at most the sum of the distances through an intermediate version |
| PathDiff.ExampleDistanceIsTwo | parallelrun_refactoring.py:132-143 | {[a,b,c],[a,d]} against {[a,b,c],[a,e]} is at distance 2 |
| Selection.Trim | parallelrun_refactoring.py:212-229 | the row keeps system, requirement, run_id and runtime; its result is the verdict on the candidate ADL when it is truthy and the attempt's own result otherwise |
| Selection.TrimmedVerdictDecidesPool | parallelrun_refactoring.py:217-227 | a result with a candidate enters the pool exactly when its row's result starts with the pass marker |
| Selection.Kept | parallelrun_refactoring.py:212-227 | the pooled indices are ascending, each a qualifying result, and every qualifying result is among them |
| Selection.ReviewBatch | parallelrun_refactoring.py:209-233 | one row per result in order; the pool rows and path changes stay the same length, the k-th of each belonging to the k-th qualifying result |
| Selection.Min | parallelrun_refactoring.py:237 | the minimum is an element no larger than any other |
| Selection.IndexOf | parallelrun_refactoring.py:237 | the position holds the value and no earlier position does |
| Selection.SelectIndex | parallelrun_refactoring.py:236-238 | the winning position holds a smallest path change and every earlier position a strictly larger one |
| Selection.ExampleSelections | parallelrun_refactoring.py:236-238 | with path changes 4 and 1 the second candidate wins; with 3, 1, 1 the first of the tied candidates wins |
| Selection.FirstMinimalPositionUnique | parallelrun_refactoring.py:237 | only one position can be first among the minimal ones |
| Selection.ScanMinIsFirstMinimal | parallelrun_refactoring.py:237 | a left-to-right scan that moves only to strictly smaller changes ends on the first minimal position |
| Selection.SelectIndexAgreesWithScan | parallelrun_refactoring.py:237 | `index(min(...))` and that scan pick the same candidate |
| Selection.Select | parallelrun_refactoring.py:236-238 | nothing is selected exactly when the pool is empty; otherwise a pool row at a first minimal position |
| Selection.FirstMinimalUnique | parallelrun_refactoring.py:224-238 | at most one result of a batch qualifies with a minimal path change and no earlier qualifying result as small |
| Selection.Choose | parallelrun_refactoring.py:224-238 | no choice exactly when no result qualifies, otherwise the first-minimal qualifying result |
| Selection.ChosenIsFirstMinimal | parallelrun_refactoring.py:224-238 | the result behind the winning pool position is first-minimal among the batch |
| Selection.ReviewAndSelect | parallelrun_refactoring.py:208-240 | one trimmed row per result; a selection exactly when some result qualifies, namely the row of the first-minimal one, whose result passes |
| Pipeline.ProcessTask | parallelrun_refactoring.py:167-240 | over the corrected batch: `numRuns` rows with the task's fields and run_ids 1..numRuns, the i-th the trimmed row of the i-th result; the selection is the row of the first-minimal qualifying result, absent exactly when none qualifies; a timed-out batch logs `"Timeout Error"` rows with runtime 0.0 and selects nothing |
| Pipeline.RunAll | parallelrun_refactoring.py:167-240 | the full log is the task logs in task order and the selection log the selections made in task order, each task contributing exactly what `ProcessTask` promises (its `numRuns` trimmed rows; a selection exactly when one of its results qualifies); so `numRuns` rows per task, at most one selection per task, every selected row a passing row of the full log |

## Left out

- The number of attempts per task is a parameter `numRuns`; the code fixes it at 7.
- The worker pool itself (`Pool`, `map_async`, the 3600-second wait, `terminate`, the spawn start method): concurrency is not modelled; its effect on a batch is the `Wait` value, and the pool's re-association of results with their arguments is taken as given.
- `exec` of the refactoring script and the namespace `build_execution_env` builds: dynamic code loading; the script's effect is the `ScriptOutcome` per run_id, and its `Final_VV_result` and `current_ADL` are taken to be a Python value and a string.
- `time.time()`, `gc.collect`, `print` and traceback output: clock and side effects; elapsed time is an input passed through.
- Reading the input table (rows 0..60 of `Refactoring_data.xlsx`), creating the output workbooks with headers, and `append_to_excel`: file I/O; the two logs are returned as sequences of rows.
- `load_adl`, `preprocess_with_adl` and `validation_verification`: their source is not part of this model; they are total functions given as parameters, so an exception raised inside them (which the code lets escape the task loop) is not modelled.
- Only an `Exception` raised by the refactoring script is caught and turned into a result, as in the code; a `BaseException` such as `SystemExit` (the script is handed `sys`) or `KeyboardInterrupt` escapes `run_one_sample`, which in a pool worker leaves the batch waiting out the hour and in the sequential fallback aborts the run; no `ScriptOutcome` stands for that case.
- Python truthiness of `current_ADL` is modelled for strings only (present and non-empty); other object types for the ADL are not modelled.
- Pipeline.ProcessTask: built on the corrected `CollectBatch` (see Findings), so a batch whose wait runs out logs `"Timeout Error"` rows; the code as written logs `"Pool Error: "` rows for it, as `Coordinator.ExpiredWaitLoggedAsPoolError` shows. Every other pool outcome gives the same rows either way (`Coordinator.CollectBatchDiffersOnlyOnExpiry`).
- Pipeline.RunAll: built on `ProcessTask`, so the same correction applies to it.
- Coordinator.CollectBatchAsWritten: states only the batch length; its rows are shown by `ExpiredWaitLoggedAsPoolError` and by `CollectBatchDiffersOnlyOnExpiry`, which ties it to `CollectBatch`.

## Findings

| source | as written | input that shows it | evidently intended | confidence | as-written member | corrected member |
|---|---|---|---|---|---|---|
| parallelrun_refactoring.py:184-196 | `except TimeoutError` names the built-in `TimeoutError`, but `AsyncResult.get(timeout=3600)` raises `multiprocessing.TimeoutError`, which derives from `multiprocessing.ProcessError` and is raised without arguments, so it reaches `except Exception` | a batch still running after 3600 seconds: every row reads `"Pool Error: "` | such a batch logs `"Timeout Error"` rows | medium (depends on CPython's multiprocessing exception classes); not executed | Coordinator.ExpiredWaitLoggedAsPoolError | Coordinator.CollectBatch |
