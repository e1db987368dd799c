/** One refactoring attempt (`run_one_sample`): run the refactoring script for
    one (system, requirement, run_id), pick up what it left behind, bound the
    sizes, and turn any `Exception` the script raises into a well-formed
    result instead of letting it escape. */
module Executor {
  import opened Wrappers
  import opened Bounds

  /** A Python value as it lands in the "Execution Result" column: a string,
      or some other object shown by its representation. */
  datatype Value = Text(text: string) | NonText(repr: string)

  /** What the refactoring script does in one attempt: it finishes, leaving
      the names `Final_VV_result` and `current_ADL` bound or not, or it raises
      an `Exception` whose `str(e)` is `error`. */
  datatype ScriptOutcome =
    | Finished(finalVV: Option<Value>, currentAdl: Option<string>)
    | Raised(error: string)

  /** The script's outcome together with the wall-clock time the attempt took. */
  datatype ScriptRun = ScriptRun(outcome: ScriptOutcome, elapsed: real)

  /** The arguments of one attempt. */
  datatype Args = Args(system: string, requirement: string, runId: int)

  /** The six-element list one attempt returns:
      [system, requirement, run_id, result, current_ADL, elapsed]. */
  datatype RawResult = RawResult(
    system: string,
    requirement: string,
    runId: int,
    result: Value,
    adl: Option<string>,
    elapsed: real)

  /** Stands in for a missing `Final_VV_result`. */
  const NoResult: Value := Text("No result produced")

  /** Runs one attempt whose script behaves as `run` says. */
  function RunOneSample(args: Args, run: ScriptRun): (r: RawResult)
    ensures r.system == args.system && r.requirement == args.requirement && r.runId == args.runId
    ensures r.elapsed == run.elapsed
    // a failed attempt carries no ADL and a bounded diagnostic
    ensures run.outcome.Raised? ==>
              && r.adl.None?
              && r.result.Text?
              && ErrorPrefix <= r.result.text
              && |r.result.text| <= MaxErrorChars + |ErrorMarker|
    ensures run.outcome.Raised? ==> r.result == Text(ErrorMessage(run.outcome.error))
    // a finished attempt reports the script's verdict, or the stand-in
    ensures run.outcome.Finished? ==> r.result == run.outcome.finalVV.GetOr(NoResult)
    // and its ADL, present exactly when the script left one, bounded in size
    ensures run.outcome.Finished? ==>
              && (r.adl.Some? <==> run.outcome.currentAdl.Some?)
              && (r.adl.Some? ==> |r.adl.value| <= MaxAdlChars + |AdlMarker|)
              && (run.outcome.currentAdl.Some? && |run.outcome.currentAdl.value| <= MaxAdlChars ==>
                    r.adl == run.outcome.currentAdl)
    ensures run.outcome.Finished? ==> r.adl == CapAdl(run.outcome.currentAdl)
  {
    match run.outcome
    case Finished(finalVV, currentAdl) =>
      RawResult(args.system, args.requirement, args.runId,
                finalVV.GetOr(NoResult), CapAdl(currentAdl), run.elapsed)
    case Raised(error) =>
      RawResult(args.system, args.requirement, args.runId,
                Text(ErrorMessage(error)), None, run.elapsed)
  }
}
