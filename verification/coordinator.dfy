/** The per-task fan-out: build the run arguments 1..N, hand them to the worker
    pool, and turn whatever the pool does into exactly N results in run_id
    order. The pool itself (processes, scheduling, the one-hour wait) is not
    modelled; what it did is the `Wait` value passed in. */
module Coordinator {
  import opened Wrappers
  import opened Executor

  /** Result text of every row of a batch that ran out of time. */
  const TimeoutText: string := "Timeout Error"
  /** Result text of every row of a batch whose collection failed, before the exception text. */
  const PoolErrorPrefix: string := "Pool Error: "
  /** `str()` of the exception `AsyncResult.get` raises when its wait runs out:
      it is raised without arguments. */
  const ExpiredWaitText: string := ""

  /** What became of the batch at the pool. */
  datatype Wait =
      /** `get` returned one result per argument, in argument order */
    | Collected
      /** the one-hour wait of `get` ran out */
    | Expired
      /** `get` raised some other exception: whether it is the built-in
          `TimeoutError`, and its text */
    | GetFailed(builtinTimeout: bool, message: string)
      /** the pool could not be created; the attempts run one after another */
    | CreateFailed

  /** The arguments of the attempts of one task, run_ids 1..numRuns. */
  function ArgsList(system: string, requirement: string, numRuns: nat): (args: seq<Args>)
    ensures |args| == numRuns
    ensures forall i :: 0 <= i < |args| ==>
              args[i].system == system && args[i].requirement == requirement && args[i].runId == i + 1
  {
    seq(numRuns, i requires 0 <= i < numRuns => Args(system, requirement, i + 1))
  }

  /** The row standing in for an attempt that never reported: no ADL, no time. */
  function Sentinel(args: Args, text: string): RawResult
  {
    RawResult(args.system, args.requirement, args.runId, Text(text), None, 0.0)
  }

  /** One sentinel row per argument. */
  function FillBatch(args: seq<Args>, text: string): (results: seq<RawResult>)
    ensures |results| == |args|
    ensures forall i :: 0 <= i < |args| ==>
              && results[i].system == args[i].system
              && results[i].requirement == args[i].requirement
              && results[i].runId == args[i].runId
              && results[i].result == Text(text)
              && results[i].adl.None?
              && results[i].elapsed == 0.0
  {
    seq(|args|, i requires 0 <= i < |args| => Sentinel(args[i], text))
  }

  /** Every argument run through `run_one_sample`, results in argument order
      whatever order the attempts finished in; `attempt` says what the script
      does on each run_id. */
  function Dispatch(args: seq<Args>, attempt: int -> ScriptRun): (results: seq<RawResult>)
    ensures |results| == |args|
    ensures forall i :: 0 <= i < |args| ==> results[i] == RunOneSample(args[i], attempt(args[i].runId))
    ensures forall i :: 0 <= i < |args| ==>
              && results[i].system == args[i].system
              && results[i].requirement == args[i].requirement
              && results[i].runId == args[i].runId
              && results[i].elapsed == attempt(args[i].runId).elapsed
  {
    var results := seq(|args|, i requires 0 <= i < |args| => RunOneSample(args[i], attempt(args[i].runId)));
    assert forall i :: 0 <= i < |args| ==> results[i] == RunOneSample(args[i], attempt(args[i].runId));
    results
  }

  /** The batch of one task as the code is written: only the built-in
      `TimeoutError` leads to timeout rows. */
  function CollectBatchAsWritten(system: string, requirement: string, numRuns: nat,
                                 wait: Wait, attempt: int -> ScriptRun): (results: seq<RawResult>)
    ensures |results| == numRuns
  {
    var args := ArgsList(system, requirement, numRuns);
    match wait
    case Collected => Dispatch(args, attempt)
    case CreateFailed => Dispatch(args, attempt)
    // the exception `get` raises on expiry is not the built-in TimeoutError
    case Expired => FillBatch(args, PoolErrorPrefix + ExpiredWaitText)
    case GetFailed(builtinTimeout, message) =>
      if builtinTimeout then FillBatch(args, TimeoutText) else FillBatch(args, PoolErrorPrefix + message)
  }

  /** As written, a batch whose wait runs out is logged as a pool error with an
      empty description, never as a timeout. */
  lemma ExpiredWaitLoggedAsPoolError(system: string, requirement: string, numRuns: nat, attempt: int -> ScriptRun)
    requires numRuns > 0
    ensures forall i :: 0 <= i < numRuns ==>
              CollectBatchAsWritten(system, requirement, numRuns, Expired, attempt)[i].result == Text("Pool Error: ")
    ensures CollectBatchAsWritten(system, requirement, numRuns, Expired, attempt)[0].result != Text(TimeoutText)
  {
  }

  /** The batch of one task: exactly `numRuns` results, run_ids 1..numRuns in
      order. A wait that ran out fills it with timeout rows, a failed
      collection with pool-error rows, and a pool that could not be created
      gives the same results as one that collected normally. */
  function CollectBatch(system: string, requirement: string, numRuns: nat,
                        wait: Wait, attempt: int -> ScriptRun): (results: seq<RawResult>)
    ensures |results| == numRuns
    ensures forall i :: 0 <= i < numRuns ==>
              results[i].system == system && results[i].requirement == requirement && results[i].runId == i + 1
    ensures wait.Expired? || (wait.GetFailed? && wait.builtinTimeout) ==>
              forall i :: 0 <= i < numRuns ==>
                results[i].result == Text(TimeoutText) && results[i].adl.None? && results[i].elapsed == 0.0
    ensures wait.GetFailed? && !wait.builtinTimeout ==>
              forall i :: 0 <= i < numRuns ==>
                results[i].result == Text(PoolErrorPrefix + wait.message) && results[i].adl.None? && results[i].elapsed == 0.0
    ensures wait.Collected? || wait.CreateFailed? ==>
              forall i :: 0 <= i < numRuns ==>
                results[i] == RunOneSample(Args(system, requirement, i + 1), attempt(i + 1))
  {
    var args := ArgsList(system, requirement, numRuns);
    match wait
    case Collected => Dispatch(args, attempt)
    case CreateFailed => Dispatch(args, attempt)
    case Expired => FillBatch(args, TimeoutText)
    case GetFailed(builtinTimeout, message) =>
      if builtinTimeout then FillBatch(args, TimeoutText) else FillBatch(args, PoolErrorPrefix + message)
  }

  /** The sequential fallback yields what the pool would have yielded. */
  lemma FallbackMatchesPool(system: string, requirement: string, numRuns: nat, attempt: int -> ScriptRun)
    ensures CollectBatch(system, requirement, numRuns, CreateFailed, attempt)
         == CollectBatch(system, requirement, numRuns, Collected, attempt)
  {
  }

  /** The correction changes only the expired wait; every other pool outcome
      gives the rows the code as written gives. */
  lemma CollectBatchDiffersOnlyOnExpiry(system: string, requirement: string, numRuns: nat,
                                        wait: Wait, attempt: int -> ScriptRun)
    requires !wait.Expired?
    ensures CollectBatch(system, requirement, numRuns, wait, attempt)
         == CollectBatchAsWritten(system, requirement, numRuns, wait, attempt)
  {
  }
}
