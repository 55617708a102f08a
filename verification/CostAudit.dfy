/**
 The audit of a result summary.  It recomputes every cost and checkpoint and checks the
 recorded attempts; the audit is clean iff the summary is consistent, and every summary of
 the model-backed runner is.  The check of failure stages, however, rejects a runner row
 exactly when the oracle's failure could not be classified.
 */
module CostAudit {
  import opened Wrappers
  import opened TokenUsage
  import opened RepairCost
  import opened OracleStage
  import opened RepairRun

  datatype Finding =
    | MetricsMissing | MetricsApart | LimitMissing
    | AttemptsMissing | AttemptsEmpty
    | WrongNumber | UsageNotObject | UsageFieldInvalid | ApiUsageNotObject | UsageMismatch | TimingsNotObject
    | ModelTimeMissing | TimeInvalid
    | AttemptsAfterPass | LimitExceeded | LimitNotExhausted | StatusMismatch | StageMismatch | RowCostMismatch
    | CostMismatch | CheckpointCountMismatch | CheckpointMismatch
    | InvalidStatus | PromptOnlyRow | StageMissing | InvalidStage
    | PassStageWrong | FailStageWrong | ModelErrorStageWrong

  // ----- one attempt --------------------------------------------------------------------

  predicate ObjectOrNull(value: Json) { value == JNull || value.JObject? }

  predicate TimeOk(r: Reading) { r.Micros? ==> r.us >= 0 }

  ghost predicate WellFormedUsage(usage: Json) {
    usage == JNull || (usage.JObject? && forall f :: f in FIELDS ==> WellFormedField(usage, f))
  }

  ghost predicate UsageConsistent(usage: Json, api: Json) {
    WellFormedUsage(usage) && ObjectOrNull(api) && NormalizeTokenUsage(api) == usage
  }

  ghost predicate AttemptConsistent(a: Attempt, number: int) {
    && a.number == number
    && UsageConsistent(a.tokenUsage, a.apiUsage)
    && ObjectOrNull(a.apiTimings)
    && a.modelWall.Micros? && TimeOk(a.modelWall) && TimeOk(a.oracleWall) && TimeOk(a.attemptWall)
  }

  method AuditUsage(usage: Json) returns (findings: seq<Finding>)
    ensures findings == [] <==> WellFormedUsage(usage)
  {
    findings := [];
    if usage.JObject? {
      for i := 0 to |FIELDS|
        invariant findings == [] <==> forall f :: f in FIELDS[..i] ==> WellFormedField(usage, f)
      {
        if !WellFormedField(usage, FIELDS[i]) { findings := findings + [UsageFieldInvalid]; }
        assert FIELDS[..i + 1] == FIELDS[..i] + [FIELDS[i]];
      }
      assert FIELDS[..|FIELDS|] == FIELDS;
    } else if usage != JNull {
      findings := [UsageNotObject];
    }
  }

  method AuditTimes(a: Attempt) returns (findings: seq<Finding>)
    ensures findings == [] <==>
      a.modelWall.Micros? && TimeOk(a.modelWall) && TimeOk(a.oracleWall) && TimeOk(a.attemptWall)
  {
    findings := [];
    if !a.modelWall.Micros? { findings := findings + [ModelTimeMissing]; }
    if !TimeOk(a.modelWall) { findings := findings + [TimeInvalid]; }
    if !TimeOk(a.oracleWall) { findings := findings + [TimeInvalid]; }
    if !TimeOk(a.attemptWall) { findings := findings + [TimeInvalid]; }
  }

  method AuditAttempt(a: Attempt, number: int) returns (findings: seq<Finding>)
    ensures findings == [] <==> AttemptConsistent(a, number)
  {
    findings := [];
    if a.number != number { findings := findings + [WrongNumber]; }
    var usage := AuditUsage(a.tokenUsage);
    findings := findings + usage;
    if !ObjectOrNull(a.apiUsage) { findings := findings + [ApiUsageNotObject]; }
    if NormalizeTokenUsage(a.apiUsage) != a.tokenUsage { findings := findings + [UsageMismatch]; }
    if !ObjectOrNull(a.apiTimings) { findings := findings + [TimingsNotObject]; }
    var times := AuditTimes(a);
    findings := findings + times;
  }

  // ----- one result row -----------------------------------------------------------------

  /** The recorded attempts are numbered and well formed, stop at a pass, use up the declared
      limit otherwise, and the row repeats the last of them and their cost. */
  ghost predicate RowConsistent(row: Row, limit: Option<nat>, required: bool) {
    if row.attempts.None? then required ==> row.status == PromptWritten
    else
      var t := row.attempts.value;
      && t != []
      && ConsistentUpTo(t, |t|)
      && (forall j :: 0 <= j < |t| - 1 ==> t[j].status != Passed)
      && (limit.Some? ==> |t| <= limit.value && (|t| < limit.value ==> t[|t| - 1].status == Passed))
      && row.status == t[|t| - 1].status && row.stage == Some(t[|t| - 1].stage)
      && row.cost == Some(CostOf(t))
  }

  ghost predicate ConsistentUpTo(t: seq<Attempt>, n: nat)
    requires n <= |t|
  {
    forall j :: 0 <= j < n ==> AttemptConsistent(t[j], j + 1)
  }

  lemma ConsistentStep(t: seq<Attempt>, n: nat)
    requires n < |t|
    ensures ConsistentUpTo(t, n + 1) <==> ConsistentUpTo(t, n) && AttemptConsistent(t[n], n + 1)
  {
  }

  method AuditAttempts(t: seq<Attempt>) returns (findings: seq<Finding>)
    ensures findings == [] <==> ConsistentUpTo(t, |t|)
  {
    findings := [];
    for i := 0 to |t|
      invariant findings == [] <==> ConsistentUpTo(t, i)
    {
      ConsistentStep(t, i);
      var more := AuditAttempt(t[i], i + 1);
      findings := findings + more;
    }
  }

  method AuditRow(row: Row, limit: Option<nat>, required: bool) returns (findings: seq<Finding>)
    ensures findings == [] <==> RowConsistent(row, limit, required)
  {
    if row.attempts.None? {
      return if required && row.status != PromptWritten then [AttemptsMissing] else [];
    }
    var t := row.attempts.value;
    if t == [] { return [AttemptsEmpty]; }
    findings := AuditAttempts(t);
    var last := t[|t| - 1];
    if exists j :: 0 <= j < |t| - 1 && t[j].status == Passed { findings := findings + [AttemptsAfterPass]; }
    if limit.Some? {
      if |t| > limit.value {
        findings := findings + [LimitExceeded];
      } else if |t| < limit.value && last.status != Passed {
        findings := findings + [LimitNotExhausted];
      }
    }
    if row.status != last.status { findings := findings + [StatusMismatch]; }
    if row.stage != Some(last.stage) { findings := findings + [StageMismatch]; }
    var cost := AggregateAttemptCost(t);
    if row.cost != Some(cost) { findings := findings + [RowCostMismatch]; }
  }

  // ----- the summary --------------------------------------------------------------------

  function DeclaredLimit(summary: Summary): Option<nat> {
    if summary.maxAttempts.Some? && summary.maxAttempts.value >= 1 then Some(summary.maxAttempts.value) else None
  }

  ghost predicate RowsConsistent(rows: seq<Row>, limit: Option<nat>, required: bool) {
    forall i :: 0 <= i < |rows| ==> RowConsistent(rows[i], limit, required)
  }

  lemma RowsConsistentStep(rows: seq<Row>, n: nat, limit: Option<nat>, required: bool)
    requires n < |rows|
    ensures RowsConsistent(rows[..n + 1], limit, required) <==>
      RowsConsistent(rows[..n], limit, required) && RowConsistent(rows[n], limit, required)
  {
    var all, init := rows[..n + 1], rows[..n];
    assert all[n] == rows[n];
    forall i | 0 <= i < n ensures all[i] == init[i] {}
  }

  ghost predicate CostsConsistent(summary: Summary) {
    && summary.cost == Some(CostOf(AllAttempts(summary.rows)))
    && summary.checkpoints.Some?
    && var points := summary.checkpoints.value;
       var count := if DeclaredLimit(summary).Some? then DeclaredLimit(summary).value else |points|;
       points == Checkpoints(summary.rows, count)
  }

  ghost predicate Consistent(summary: Summary, required: bool) {
    if summary.cost.None? && summary.checkpoints.None? then !required
    else
      && (required ==> DeclaredLimit(summary).Some?)
      && RowsConsistent(summary.rows, DeclaredLimit(summary), required)
      && CostsConsistent(summary)
  }

  method AuditRows(rows: seq<Row>, limit: Option<nat>, required: bool)
    returns (findings: seq<Finding>, all: seq<Attempt>)
    ensures findings == [] <==> RowsConsistent(rows, limit, required)
    ensures all == AllAttempts(rows)
  {
    findings, all := [], [];
    for i := 0 to |rows|
      invariant findings == [] <==> RowsConsistent(rows[..i], limit, required)
      invariant all == AllAttempts(rows[..i])
    {
      assert rows[..i + 1][..i] == rows[..i];
      RowsConsistentStep(rows, i, limit, required);
      var more := AuditRow(rows[i], limit, required);
      findings := findings + more;
      all := all + AttemptsOf(rows[i]);
    }
    assert rows[..|rows|] == rows;
  }

  method AuditCosts(summary: Summary, all: seq<Attempt>) returns (findings: seq<Finding>)
    requires summary.cost.Some? && summary.checkpoints.Some? && all == AllAttempts(summary.rows)
    ensures findings == [] <==> CostsConsistent(summary)
  {
    findings := [];
    var cost := AggregateAttemptCost(all);
    if summary.cost != Some(cost) { findings := findings + [CostMismatch]; }
    var points, limit := summary.checkpoints.value, DeclaredLimit(summary);
    var count := if limit.Some? then limit.value else |points|;
    if |points| != count { findings := findings + [CheckpointCountMismatch]; }
    var expected := RepairPolicyCheckpoints(summary.rows, Some(count));
    if points != expected { findings := findings + [CheckpointMismatch]; }
    assert |expected| == count;
  }

  method AuditCostMetrics(summary: Summary, required: bool) returns (findings: seq<Finding>)
    ensures findings == [] <==> Consistent(summary, required)
  {
    if summary.cost.None? && summary.checkpoints.None? {
      return if required then [MetricsMissing] else [];
    }
    if summary.cost.None? || summary.checkpoints.None? { return [MetricsApart]; }
    findings := if required && DeclaredLimit(summary).None? then [LimitMissing] else [];
    var rows, all := AuditRows(summary.rows, DeclaredLimit(summary), required);
    var costs := AuditCosts(summary, all);
    findings := findings + rows + costs;
  }

  // ----- failure stages -----------------------------------------------------------------

  predicate StatusAllowed(status: Status) { !status.OtherStatus? }

  predicate StageAllowed(stage: Stage) {
    match stage
    case StagePass | PromptOnly | ModelCall | ExtractSource | Compile | MapSetup | VerifierLoad
       | FunctionalOracle | AuxiliaryProofPredicate => true
    case _ => false
  }

  function StageForResult(row: Row): Option<Stage> {
    if row.stage.Some? then row.stage
    else if row.status == Passed then Some(StagePass)
    else if row.status == PromptWritten then Some(PromptOnly)
    else None
  }

  /** A stage that may stand beside the status. */
  predicate Compatible(status: Status, stage: Stage) {
    match status
    case Passed => stage.StagePass?
    case Failed => !(stage.StagePass? || stage.PromptOnly? || stage.ModelCall? || stage.ExtractSource?)
    case ModelError => stage.ModelCall? || stage.ExtractSource?
    case _ => true
  }

  ghost predicate StageConsistent(row: Row, allowPromptOnly: bool) {
    && StatusAllowed(row.status)
    && (row.status == PromptWritten ==> allowPromptOnly)
    && StageForResult(row).Some?
    && StageAllowed(StageForResult(row).value)
    && Compatible(row.status, StageForResult(row).value)
  }

  method AuditStage(row: Row, allowPromptOnly: bool) returns (findings: seq<Finding>)
    ensures findings == [] <==> StageConsistent(row, allowPromptOnly)
  {
    if !StatusAllowed(row.status) { return [InvalidStatus]; }
    findings := [];
    if row.status == PromptWritten && !allowPromptOnly { findings := findings + [PromptOnlyRow]; }
    var stage := StageForResult(row);
    if stage.None? {
      findings := findings + [StageMissing];
    } else if !StageAllowed(stage.value) {
      findings := findings + [InvalidStage];
    } else {
      if row.status == Passed && !stage.value.StagePass? { findings := findings + [PassStageWrong]; }
      if row.status == Failed && (stage.value.StagePass? || stage.value.PromptOnly? || stage.value.ModelCall?
                                  || stage.value.ExtractSource?) {
        findings := findings + [FailStageWrong];
      }
      if row.status == ModelError && !(stage.value.ModelCall? || stage.value.ExtractSource?) {
        findings := findings + [ModelErrorStageWrong];
      }
    }
  }

  /** Which stages may stand beside which status, and which rows may go without one. */
  lemma StageTable(row: Row, allowPromptOnly: bool)
    ensures row.stage.Some? ==> (StageConsistent(row, allowPromptOnly) <==>
      match row.status
      case Passed => row.stage.value == StagePass
      case Failed =>
        row.stage.value in {Compile, MapSetup, VerifierLoad, FunctionalOracle, AuxiliaryProofPredicate}
      case ModelError => row.stage.value in {ModelCall, ExtractSource}
      case PromptWritten => allowPromptOnly && row.stage.value !in {Oracle, OracleParse, OtherStage}
      case OtherStatus => false)
    ensures row.stage.None? ==>
      (StageConsistent(row, allowPromptOnly) <==>
        row.status == Passed || (row.status == PromptWritten && allowPromptOnly))
  {
  }

  // ----- the audit leaves nothing open --------------------------------------------------

  /** The rows record the same attempts. */
  ghost predicate SameAttempts(s: seq<Row>, t: seq<Row>) {
    |s| == |t| && forall i :: 0 <= i < |s| ==> s[i].attempts == t[i].attempts
  }

  lemma {:induction false} SameSelection(s: seq<Row>, t: seq<Row>, limit: nat)
    requires SameAttempts(s, t)
    ensures Selected(s, limit) == Selected(t, limit) && CountPasses(s, limit) == CountPasses(t, limit)
    ensures AllAttempts(s) == AllAttempts(t)
  {
    if s != [] {
      var n := |s| - 1;
      assert s[n].attempts == t[n].attempts;
      SameSelection(s[..n], t[..n], limit);
    }
  }

  lemma SameCheckpoints(s: seq<Row>, t: seq<Row>, count: nat)
    requires SameAttempts(s, t)
    ensures Checkpoints(s, count) == Checkpoints(t, count)
  {
    forall i | 0 <= i < count ensures Checkpoints(s, count)[i] == Checkpoints(t, count)[i] {
      SameSelection(s, t, i + 1);
    }
  }

  lemma RowDetermined(s: Row, t: Row, limit: Option<nat>)
    requires RowConsistent(s, limit, true) && RowConsistent(t, limit, true)
    requires s.attempts == t.attempts && s.attempts.Some?
    ensures s.status == t.status && s.stage == t.stage && s.cost == t.cost
  {
  }

  /** Two clean summaries that record the same attempts under the same limit agree in every figure: in
      status, stage and cost of each row, in their cost and in all checkpoints. */
  lemma AuditDetermines(s: Summary, t: Summary)
    requires Consistent(s, true) && Consistent(t, true)
    requires SameAttempts(s.rows, t.rows) && s.maxAttempts == t.maxAttempts
    ensures s.cost == t.cost && s.checkpoints == t.checkpoints
    ensures forall i :: 0 <= i < |s.rows| && s.rows[i].attempts.Some? ==>
      s.rows[i].status == t.rows[i].status && s.rows[i].stage == t.rows[i].stage && s.rows[i].cost == t.rows[i].cost
  {
    SameSelection(s.rows, t.rows, 0);
    SameCheckpoints(s.rows, t.rows, DeclaredLimit(s).value);
    forall i | 0 <= i < |s.rows| && s.rows[i].attempts.Some?
      ensures s.rows[i].status == t.rows[i].status && s.rows[i].stage == t.rows[i].stage
      ensures s.rows[i].cost == t.rows[i].cost
    {
      RowDetermined(s.rows[i], t.rows[i], DeclaredLimit(s));
    }
  }

  // ----- the runner against the audit ---------------------------------------------------

  /** Status and stage of an attempt the runner made. */
  predicate ExplainedBy(status: Status, stage: Stage) {
    match status
    case ModelError => stage.ModelCall? || stage.ExtractSource?
    case Passed => stage.StagePass?
    case Failed =>
      !(stage.StagePass? || stage.PromptOnly? || stage.ModelCall? || stage.ExtractSource? || stage.OtherStage?)
    case _ => false
  }

  ghost predicate StageExplained(a: Attempt) { ExplainedBy(a.status, a.stage) }

  lemma RecordedUsageConsistent(raw: Json)
    ensures UsageConsistent(NormalizeTokenUsage(raw), Recorded(raw))
  {
    NormalizeKeepsNormalized(raw);
    if NormalizeTokenUsage(raw).JObject? {
      forall f | f in FIELDS ensures WellFormedField(NormalizeTokenUsage(raw), f) { FieldIsReported(raw, f); }
    }
  }

  lemma MadeConsistent(
    i: nat, status: Status, stage: Stage, prompt: string, reply: Reply, oracleWall: Reading, spent: nat)
    requires TimeOk(oracleWall)
    ensures AttemptConsistent(Made(i, status, stage, prompt, reply, oracleWall, spent), i)
  {
    if reply.Replied? { RecordedUsageConsistent(reply.usage); } else { RecordedUsageConsistent(JNull); }
  }

  lemma JudgedExplained(w: World, c: Case, i: nat, limit: nat, context: Option<string>, reply: Reply)
    ensures var o := Judged(w, c, i, limit, context, reply);
      ExplainedBy(o.status, o.stage) && TimeOk(o.oracleWall)
  {
    if reply.Replied? && reply.content.Some? && w.extract(reply.content.value).Some? {
      StageRange(w.oracle(c.id, i, w.extract(reply.content.value).value));
    }
  }

  ghost predicate Sound(a: Attempt, number: int) { AttemptConsistent(a, number) && StageExplained(a) }

  lemma RunnerAttempt(w: World, c: Case, i: nat, limit: nat, context: Option<string>)
    ensures RunnerMade([OneAttempt(w, c, i, limit, context).attempt], i)
  {
    var prompt := AppendRetryContext(c.prompt, context);
    var reply := w.model(c.id, i, prompt);
    var o := Judged(w, c, i, limit, context, reply);
    JudgedExplained(w, c, i, limit, context, reply);
    MadeConsistent(i, o.status, o.stage, prompt, reply, o.oracleWall, w.clock(c.id, i));
  }

  ghost predicate RunnerMade(t: seq<Attempt>, first: nat) {
    forall j :: 0 <= j < |t| ==> Sound(t[j], first + j)
  }

  lemma RunnerMadeJoin(s: seq<Attempt>, t: seq<Attempt>, first: nat)
    requires RunnerMade(s, first) && RunnerMade(t, first + |s|)
    ensures RunnerMade(s + t, first)
  {
    var u := s + t;
    forall j | 0 <= j < |u| ensures Sound(u[j], first + j) {
      if j >= |s| {
        var k := j - |s|;
        assert u[j] == t[k] && first + j == first + |s| + k;
      }
    }
  }

  lemma {:induction false} TrajectoryRunnerMade(w: World, c: Case, i: nat, limit: nat, context: Option<string>)
    ensures RunnerMade(Trajectory(w, c, i, limit, context), i)
    decreases limit + 1 - i
  {
    if i <= limit {
      var step := OneAttempt(w, c, i, limit, context);
      RunnerAttempt(w, c, i, limit, context);
      TrajectoryRunnerMade(w, c, i + 1, limit, step.context);
      TrajectoryUnfolds(w, c, i, limit, context);
      RunnerMadeJoin([step.attempt], Following(w, c, i, limit, step), i);
    }
  }

  lemma RunnerRowConsistent(w: World, c: Case, limit: nat, required: bool)
    requires limit >= 1
    ensures RowConsistent(RowOf(w, c, limit), Some(limit), required)
  {
    TrajectoryShape(w, c, 1, limit, None);
    TrajectoryRunnerMade(w, c, 1, limit, None);
    var t := Attempts(w, c, limit);
    forall j | 0 <= j < |t| ensures AttemptConsistent(t[j], j + 1) { assert Sound(t[j], 1 + j); }
  }

  lemma {:induction false} RunnerRowsConsistent(w: World, cases: seq<Case>, limit: nat, required: bool)
    requires limit >= 1
    ensures RowsConsistent(RowsOf(w, cases, limit), Some(limit), required)
  {
    if cases != [] {
      var last := RowOf(w, cases[|cases| - 1], limit);
      RunnerRowsConsistent(w, cases[..|cases| - 1], limit, required);
      RunnerRowConsistent(w, cases[|cases| - 1], limit, required);
      assert RowsOf(w, cases, limit) == RowsOf(w, cases[..|cases| - 1], limit) + [last];
    }
  }

  /** No summary of the model-backed runner draws a finding, with or without required metrics. */
  lemma RunnerSummaryIsClean(w: World, cases: seq<Case>, limit: nat, required: bool)
    requires limit >= 1
    ensures Consistent(SummaryOf(RowsOf(w, cases, limit), limit), required)
  {
    RunnerRowsConsistent(w, cases, limit, required);
  }

  lemma ExplainedStageAllowedIff(a: Attempt)
    requires StageExplained(a)
    ensures StatusAllowed(a.status) && a.status != PromptWritten
    ensures StageAllowed(a.stage) && Compatible(a.status, a.stage) <==> a.stage !in {Oracle, OracleParse}
  {
  }

  /** The stage check rejects a runner row exactly when its final stage is one of the two the
      auditor does not list. */
  lemma RunnerRowRejectedIff(w: World, c: Case, limit: nat, allowPromptOnly: bool)
    requires limit >= 1
    ensures StageConsistent(RowOf(w, c, limit), allowPromptOnly) <==>
      RowOf(w, c, limit).stage.value !in {Oracle, OracleParse}
  {
    TrajectoryShape(w, c, 1, limit, None);
    TrajectoryRunnerMade(w, c, 1, limit, None);
    var t := Attempts(w, c, limit);
    assert Sound(t[|t| - 1], 1 + (|t| - 1));
    ExplainedStageAllowedIff(t[|t| - 1]);
  }
}
