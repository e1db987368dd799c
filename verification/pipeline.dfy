/** The outer loop over tasks: for each (system, requirement) run one batch,
    review it, append every row to the full log and the winner, if any, to the
    selection log. Tasks are processed one after another. */
module Pipeline {
  import opened Wrappers
  import opened Executor
  import opened Coordinator
  import opened Selection

  /** One row of the input table. */
  datatype Task = Task(system: string, requirement: string)

  /** The execution paths of the system before refactoring. */
  function OriginalPaths(task: Task, h: Helpers): seq<Path>
  {
    h.pathsOf(h.loadAdl(task.system))
  }

  /** What one task contributes: `log` holds one trimmed row per result of the
      batch, and `optimal` is absent exactly when no result qualifies and is
      otherwise the row of the unique first-minimal qualifying result. */
  ghost predicate TaskOutcome(task: Task, numRuns: nat, wait: Wait, attempt: int -> ScriptRun, h: Helpers,
                              log: seq<Row>, optimal: Option<Row>)
  {
    var results := CollectBatch(task.system, task.requirement, numRuns, wait, attempt);
    && |log| == numRuns
    && (forall i :: 0 <= i < numRuns ==> log[i] == Trim(results[i], task.requirement, h))
    && (optimal.None? <==> forall i :: 0 <= i < numRuns ==> !Qualifies(results[i], task.requirement, h))
    && (optimal.Some? ==>
          exists i: nat :: FirstMinimal(results, task.requirement, OriginalPaths(task, h), h, i) && optimal.value == log[i])
  }

  /** The task logs one after another. */
  function Flatten(logs: seq<seq<Row>>): seq<Row>
  {
    if |logs| == 0 then [] else Flatten(logs[..|logs| - 1]) + logs[|logs| - 1]
  }

  /** Task logs of `n` rows each flatten to `n` rows per task. */
  lemma {:induction false} FlattenLength(logs: seq<seq<Row>>, n: nat)
    requires forall u :: 0 <= u < |logs| ==> |logs[u]| == n
    ensures |Flatten(logs)| == |logs| * n
    decreases |logs|
  {
    if |logs| > 0 {
      FlattenLength(logs[..|logs| - 1], n);
      assert |Flatten(logs)| == (|logs| - 1) * n + n;
    }
  }

  /** The selections that were made, in task order. */
  function Picked(picks: seq<Option<Row>>): seq<Row>
  {
    if |picks| == 0 then []
    else Picked(picks[..|picks| - 1]) + (match picks[|picks| - 1] case Some(row) => [row] case None => [])
  }

  /** Appending one task's log and selection extends both logs by exactly those. */
  lemma AppendTask(logs: seq<seq<Row>>, picks: seq<Option<Row>>, log: seq<Row>, optimal: Option<Row>)
    ensures Flatten(logs + [log]) == Flatten(logs) + log
    ensures Picked(picks + [optimal]) == Picked(picks) + (match optimal case Some(row) => [row] case None => [])
  {
  }

  /** Appending one task's outcome keeps the earlier tasks' outcomes. */
  lemma KeepOutcomes(tasks: seq<Task>, numRuns: nat, wait: nat -> Wait, attempt: nat -> int -> ScriptRun, h: Helpers,
                      logs: seq<seq<Row>>, picks: seq<Option<Row>>, log: seq<Row>, optimal: Option<Row>)
    requires |logs| == |picks| < |tasks|
    requires forall u :: 0 <= u < |logs| ==> TaskOutcome(tasks[u], numRuns, wait(u), attempt(u), h, logs[u], picks[u])
    requires TaskOutcome(tasks[|logs|], numRuns, wait(|logs|), attempt(|logs|), h, log, optimal)
    ensures forall u :: 0 <= u < |logs| + 1 ==>
              TaskOutcome(tasks[u], numRuns, wait(u), attempt(u), h, (logs + [log])[u], (picks + [optimal])[u])
  {
  }

  /** One task: `numRuns` log rows with run_ids 1..numRuns, and a selection
      exactly when some result passed, which is then the row of the unique
      first-minimal passing result. A batch whose wait ran out logs timeout
      rows and selects nothing. */
  method ProcessTask(task: Task, numRuns: nat, wait: Wait, attempt: int -> ScriptRun, h: Helpers)
    returns (log: seq<Row>, optimal: Option<Row>)
    ensures |log| == numRuns
    ensures forall i :: 0 <= i < numRuns ==>
              log[i].system == task.system && log[i].requirement == task.requirement && log[i].runId == i + 1
    ensures TaskOutcome(task, numRuns, wait, attempt, h, log, optimal)
    ensures optimal.Some? ==> optimal.value in log && Passes(optimal.value.result)
    ensures wait.Expired? ==>
              && optimal.None?
              && forall i :: 0 <= i < numRuns ==> log[i].result == Text(TimeoutText) && log[i].runtime == 0.0
  {
    var results := CollectBatch(task.system, task.requirement, numRuns, wait, attempt);
    log, optimal := ReviewAndSelect(results, task.requirement, OriginalPaths(task, h), h);
  }

  /** All tasks in order: the full log is the task logs one after another,
      the selection log the selections made, in task order, each task
      contributing what `ProcessTask` promises; so `numRuns` full-log rows per
      task, at most one selection row per task, and every selected row a
      passing row of the full log. `wait(t)` and `attempt(t)` say what the
      pool and the script did for task `t`. */
  method RunAll(tasks: seq<Task>, numRuns: nat, wait: nat -> Wait, attempt: nat -> int -> ScriptRun, h: Helpers)
    returns (fullLog: seq<Row>, selectionLog: seq<Row>, ghost logs: seq<seq<Row>>, ghost picks: seq<Option<Row>>)
    ensures |logs| == |tasks| && |picks| == |tasks|
    ensures fullLog == Flatten(logs) && selectionLog == Picked(picks)
    ensures forall t :: 0 <= t < |tasks| ==> TaskOutcome(tasks[t], numRuns, wait(t), attempt(t), h, logs[t], picks[t])
    ensures |fullLog| == |tasks| * numRuns
    ensures |selectionLog| <= |tasks|
    ensures forall r :: r in selectionLog ==> r in fullLog && Passes(r.result)
  {
    fullLog, selectionLog, logs, picks := [], [], [], [];
    for t := 0 to |tasks|
      invariant |logs| == t && |picks| == t
      invariant fullLog == Flatten(logs) && selectionLog == Picked(picks)
      invariant forall u :: 0 <= u < t ==> TaskOutcome(tasks[u], numRuns, wait(u), attempt(u), h, logs[u], picks[u])
      invariant forall u :: 0 <= u < t ==> |logs[u]| == numRuns
      invariant |selectionLog| <= t
      invariant forall r :: r in selectionLog ==> r in fullLog && Passes(r.result)
    {
      var log, optimal := ProcessTask(tasks[t], numRuns, wait(t), attempt(t), h);
      AppendTask(logs, picks, log, optimal);
      KeepOutcomes(tasks, numRuns, wait, attempt, h, logs, picks, log, optimal);
      logs := logs + [log];
      picks := picks + [optimal];
      fullLog := fullLog + log;
      if optimal.Some? {
        selectionLog := selectionLog + [optimal.value];
      }
    }
    FlattenLength(logs, numRuns);
  }
}
