/**
 * The HYBRID calibration driver: it has no resume gate and runs the model on every
 * submission, appends the metric bundle to `outputs_for_analysis.txt`, and overwrites
 * the results file with the bundle.
 */
module HybridDriver {
  import opened Outcomes
  import opened Text
  import opened JobFiles

  /** The metric files after a run: the bundle appended to the metric file (created when
      missing) and the results file replaced by the bundle. The failure log is untouched. */
  function RecordMetrics(dir: Directory, bundle: seq<string>): (r: Directory)
    ensures r.failLog == dir.failLog
    ensures r.outputs.Some? && r.results.Some?
    ensures var prior := dir.outputs.GetOr("");
            && |r.outputs.value| == |prior| + |r.results.value|
            && r.outputs.value[..|prior|] == prior
            && r.outputs.value[|prior|..] == r.results.value
  {
    dir.(outputs := Some(dir.outputs.GetOr("") + JoinLines(bundle)),
         results := Some(JoinLines(bundle)))
  }

  /** One submission: the model always runs; a crash leaves the directory as it was. */
  function Submit(dir: Directory, outcome: RunOutcome): (s: Submission)
    ensures s.ran && s.dir.failLog == dir.failLog
  {
    match outcome
    case Crashed => Submission(true, dir)
    case Succeeded(bundle) => Submission(true, RecordMetrics(dir, bundle))
  }

  /** One submission as the driver runs it: the append loop, then the overwrite loop. */
  method RunSubmission(dir: Directory, outcome: RunOutcome) returns (ran: bool, after: Directory)
    ensures Submission(ran, after) == Submit(dir, outcome)
  {
    ran, after := true, dir;
    if outcome.Succeeded? {
      var outputs := WriteMetrics(dir.outputs.GetOr(""), outcome.bundle);
      after := after.(outputs := Some(outputs));
      var results := WriteMetrics("", outcome.bundle);
      assert results == JoinLines(outcome.bundle);
      after := after.(results := Some(results));
    }
  }

  /** Every submission runs the model, whatever the directory holds. */
  lemma AlwaysRuns(dir: Directory, outcome: RunOutcome)
    ensures Submit(dir, outcome).ran
    ensures outcome.Crashed? ==> Submit(dir, outcome).dir == dir
  {
  }

  /** After a successful run the results hold exactly the bundle, one value per line in
      bundle order, and the metric file still begins with what it held before. */
  lemma SuccessRecordsBundle(dir: Directory, bundle: seq<string>)
    requires forall i :: 0 <= i < |bundle| ==> '\n' !in bundle[i]
    ensures var after := Submit(dir, Succeeded(bundle)).dir;
            && after.results.Some?
            && |ReadLines(after.results.value)| == |bundle|
            && (forall i :: 0 <= i < |bundle| ==> ReadLines(after.results.value)[i] == bundle[i] + "\n")
            && after.outputs.Some?
            && var prior := dir.outputs.GetOr("");
               |prior| <= |after.outputs.value| && after.outputs.value[..|prior|] == prior
  {
    ReadJoinLines(bundle);
  }

  /** Appending to a metric file that ends a line keeps its lines and adds one line per
      value after them, so resubmitting a finished run grows the file by a whole bundle. */
  lemma AppendKeepsPriorLines(dir: Directory, bundle: seq<string>)
    requires forall i :: 0 <= i < |bundle| ==> '\n' !in bundle[i]
    requires EndsLine(dir.outputs.GetOr(""))
    ensures var prior := ReadLines(dir.outputs.GetOr(""));
            var lines := ReadLines(Submit(dir, Succeeded(bundle)).dir.outputs.value);
            && |lines| == |prior| + |bundle|
            && lines[..|prior|] == prior
            && forall i :: 0 <= i < |bundle| ==> lines[|prior| + i] == bundle[i] + "\n"
  {
    ReadLinesAppend(dir.outputs.GetOr(""), JoinLines(bundle));
    ReadJoinLines(bundle);
  }
}
