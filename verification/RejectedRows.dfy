/**
 Which rows of the runner the auditor rejects for their stage, in terms of what happened in the run:
 exactly those whose last attempt reached the oracle and got a failure nobody classifies.
 */
module RejectedRows {
  import opened Wrappers
  import opened TokenUsage
  import opened RepairCost
  import opened OracleStage
  import opened OpensnoopReport
  import opened RepairRun
  import opened RepairTrace
  import opened CostAudit

  /** The oracle run of an attempt: none if the model call failed or its reply holds no source. */
  ghost function OracleRunOf(w: World, c: Case, i: nat, context: Option<string>): Option<OracleRun> {
    var reply := w.model(c.id, i, AppendRetryContext(c.prompt, context));
    if reply.CallFailed? || reply.error.Some? || reply.content.None? then None
    else
      var source := w.extract(reply.content.value);
      if source.None? then None else Some(w.oracle(c.id, i, source.value))
  }

  /** The oracle run of the last attempt of the case. */
  ghost function LastRun(w: World, c: Case, limit: nat): Option<OracleRun> {
    var n := |Attempts(w, c, limit)|;
    if n == 0 then None else OracleRunOf(w, c, n, ContextAfter(w, c, 1, limit, None, n - 1))
  }

  lemma StageOfAttempt(w: World, c: Case, i: nat, limit: nat, context: Option<string>)
    ensures var run := OracleRunOf(w, c, i, context);
      OneAttempt(w, c, i, limit, context).attempt.stage in {Oracle, OracleParse} <==>
        run.Some? && Unclassified(run.value)
  {
    var run := OracleRunOf(w, c, i, context);
    if run.Some? { UnclassifiedIff(run.value); }
  }

  /** For every world: the stage check rejects the row of a case iff its last attempt reached the
      oracle, and that run failed without a failure the classifier reads. */
  lemma RowRejectedIffUnclassified(w: World, c: Case, limit: nat, allowPromptOnly: bool)
    requires limit >= 1
    ensures !StageConsistent(RowOf(w, c, limit), allowPromptOnly) <==>
      LastRun(w, c, limit).Some? && Unclassified(LastRun(w, c, limit).value)
  {
    RunnerRowRejectedIff(w, c, limit, allowPromptOnly);
    TrajectoryShape(w, c, 1, limit, None);
    var n := |Attempts(w, c, limit)|;
    AttemptAt(w, c, 1, limit, None, n - 1);
    StageOfAttempt(w, c, n, limit, ContextAfter(w, c, 1, limit, None, n - 1));
  }

  /** If that oracle is the opensnoop one: iff everything but a check of the verifier log passed. */
  lemma OpensnoopRowRejectedIff(w: World, c: Case, limit: nat, o: OpensnoopReport.Outcome, wall: nat)
    requires limit >= 1 && LastRun(w, c, limit) == Some(o.Run(wall))
    ensures !StageConsistent(RowOf(w, c, limit), false) <==>
      o.compile == 0 && o.load == 0 && false !in o.source && false in o.log
  {
    RowRejectedIffUnclassified(w, c, limit, false);
    UnclassifiedIff(o.Run(wall));
    StageOfReport(o, wall);
  }

  const REPLY: string := "```c\nint x;\n```"
  const SOURCE: string := "int x;\n"

  /** The model answers with a code block that the opensnoop oracle rejects for its verifier log. */
  function NoCleanupWorld(): World {
    World(
      (id: string, i: nat, prompt: string) => Replied(Some(REPLY), None, JNull, JNull, 0),
      (response: string) => if response == REPLY then Some(SOURCE) else None,
      (id: string, i: nat, source: string) => NO_CLEANUP_PATH.Run(0),
      (id: string, i: nat) => 0,
      (response: string) => [],
      (run: OracleRun, source: string) => [])
  }

  lemma NoCleanupRun(c: Case, i: nat, context: Option<string>)
    ensures OracleRunOf(NoCleanupWorld(), c, i, context) == Some(NO_CLEANUP_PATH.Run(0))
  {
  }

  /** Under every limit there are runner rows that are clean in their costs and rejected for their
      stage. */
  lemma CleanCostsRejectedStage(c: Case, limit: nat)
    requires limit >= 1
    ensures exists w ::
      && !StageConsistent(RowOf(w, c, limit), false)
      && Consistent(SummaryOf(RowsOf(w, [c], limit), limit), true)
  {
    var w := NoCleanupWorld();
    TrajectoryShape(w, c, 1, limit, None);
    var n := |Attempts(w, c, limit)|;
    NoCleanupRun(c, n, ContextAfter(w, c, 1, limit, None, n - 1));
    OpensnoopRowRejectedIff(w, c, limit, NO_CLEANUP_PATH, 0);
    RunnerSummaryIsClean(w, [c], limit, true);
  }
}
