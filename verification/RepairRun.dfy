/**
 The model-backed repair run: for every case the runner asks the model again, with the context
 of the previous failure, until the oracle passes or the attempt limit is reached.  Model and
 oracle are fixed functions of the case, the attempt number and what they are given.  The
 main result is that one long run contains every shorter one.
 */
module RepairRun {
  import opened Wrappers
  import opened TokenUsage
  import opened RepairCost
  import opened OracleStage

  /** A model call: an exception of the call, or a reply whose content may be unusable. */
  datatype Reply =
    | CallFailed(wall: nat)
    | Replied(content: Option<string>, error: Option<string>, usage: Json, timings: Json, wall: nat)

  datatype Case = Case(id: string, prompt: string)

  /** What the runner does not compute itself. */
  datatype World = World(
    model: (string, nat, string) -> Reply,
    extract: string -> Option<string>,
    oracle: (string, nat, string) -> OracleRun,
    clock: (string, nat) -> nat,
    extractContext: string -> string,
    oracleContext: (OracleRun, string) -> string)

  const RETRY_HEADER := "\n\nRetry context:\n"

  function AppendRetryContext(prompt: string, context: Option<string>): string {
    if context.None? then prompt else prompt + RETRY_HEADER + context.value + ['\n']
  }

  /** An object is recorded as it is, anything else as null. */
  function Recorded(value: Json): Json {
    if value.JObject? then value else JNull
  }

  /** The record of an attempt with the metrics of its reply; a failed call has none. */
  function Made(
    i: nat, status: Status, stage: Stage, prompt: string, reply: Reply, oracleWall: Reading, spent: nat): Attempt
  {
    if reply.CallFailed? then
      Attempt(i, status, stage, prompt, JNull, JNull, JNull, Micros(reply.wall), oracleWall, Micros(spent))
    else
      Attempt(i, status, stage, prompt, NormalizeTokenUsage(reply.usage), Recorded(reply.usage),
              Recorded(reply.timings), Micros(reply.wall), oracleWall, Micros(spent))
  }

  /** How a reply is judged, and the retry context for the next attempt. */
  datatype Outcome = Outcome(status: Status, stage: Stage, oracleWall: Reading, context: Option<string>)

  function Judged(w: World, c: Case, i: nat, limit: nat, context: Option<string>, reply: Reply): Outcome {
    if reply.CallFailed? || reply.error.Some? || reply.content.None? then
      Outcome(ModelError, ModelCall, Null, context)
    else
      var source := w.extract(reply.content.value);
      if source.None? then
        Outcome(ModelError, ExtractSource, Null,
                if i < limit then Some(w.extractContext(reply.content.value)) else None)
      else
        var run := w.oracle(c.id, i, source.value);
        Outcome(if run.returncode == 0 then Passed else Failed, OracleFailureStage(run), Micros(run.wall),
                if run.returncode != 0 && i < limit then Some(w.oracleContext(run, source.value)) else None)
  }

  /** One attempt and the retry context for the next one. */
  datatype Step = Step(attempt: Attempt, context: Option<string>)

  function OneAttempt(w: World, c: Case, i: nat, limit: nat, context: Option<string>): Step {
    var prompt := AppendRetryContext(c.prompt, context);
    var reply := w.model(c.id, i, prompt);
    var o := Judged(w, c, i, limit, context, reply);
    Step(Made(i, o.status, o.stage, prompt, reply, o.oracleWall, w.clock(c.id, i)), o.context)
  }

  function Trajectory(w: World, c: Case, i: nat, limit: nat, context: Option<string>): seq<Attempt>
    decreases limit + 1 - i
  {
    if i > limit then []
    else
      var step := OneAttempt(w, c, i, limit, context);
      [step.attempt] + if step.attempt.status == Passed then [] else Trajectory(w, c, i + 1, limit, step.context)
  }

  function Attempts(w: World, c: Case, limit: nat): seq<Attempt> {
    Trajectory(w, c, 1, limit, None)
  }

  method RepairCase(w: World, c: Case, limit: nat) returns (attempts: seq<Attempt>)
    ensures attempts == Attempts(w, c, limit)
  {
    var retry: Option<string> := None;
    attempts := [];
    for i := 1 to limit + 1
      invariant attempts + Trajectory(w, c, i, limit, retry) == Attempts(w, c, limit)
    {
      ghost var before := attempts;
      ghost var step := OneAttempt(w, c, i, limit, retry);
      ghost var rest := Trajectory(w, c, i + 1, limit, step.context);
      assert before + ([step.attempt] + rest) == (before + [step.attempt]) + rest;
      var prompt := AppendRetryContext(c.prompt, retry);
      var reply := w.model(c.id, i, prompt);
      var spent := w.clock(c.id, i);
      if reply.CallFailed? {
        attempts := attempts + [Made(i, ModelError, ModelCall, prompt, reply, Null, spent)];
        if i == limit { break; }
        continue;
      }
      if reply.error.Some? || reply.content.None? {
        attempts := attempts + [Made(i, ModelError, ModelCall, prompt, reply, Null, spent)];
        if i == limit { break; }
        continue;
      }
      var source := w.extract(reply.content.value);
      if source.None? {
        attempts := attempts + [Made(i, ModelError, ExtractSource, prompt, reply, Null, spent)];
        if i == limit { break; }
        retry := Some(w.extractContext(reply.content.value));
        continue;
      }
      var run := w.oracle(c.id, i, source.value);
      attempts := attempts +
        [Made(i, if run.returncode == 0 then Passed else Failed, OracleFailureStage(run), prompt, reply,
              Micros(run.wall), spent)];
      if run.returncode == 0 { break; }
      retry := if i < limit then Some(w.oracleContext(run, source.value)) else None;
    }
  }

  // ----- the shape of a trajectory ------------------------------------------------------

  ghost predicate Shaped(t: seq<Attempt>, first: nat, limit: nat) {
    && |t| <= limit + 1 - first
    && (forall j :: 0 <= j < |t| ==> t[j].number == first + j)
    && (forall j :: 0 <= j < |t| - 1 ==> t[j].status != Passed)
    && (|t| < limit + 1 - first ==> t != [] && t[|t| - 1].status == Passed)
  }

  /** Attempts are numbered in order, stop at the first pass, and otherwise exhaust the limit. */
  lemma {:induction false} TrajectoryShape(w: World, c: Case, i: nat, limit: nat, context: Option<string>)
    requires i <= limit + 1
    ensures Shaped(Trajectory(w, c, i, limit, context), i, limit)
    ensures i <= limit ==> Trajectory(w, c, i, limit, context) != []
    decreases limit + 1 - i
  {
    if i <= limit {
      TrajectoryShape(w, c, i + 1, limit, OneAttempt(w, c, i, limit, context).context);
    }
  }

  ghost predicate FailedCallsKeepPrompt(t: seq<Attempt>) {
    forall j :: 0 <= j < |t| - 1 && t[j].stage == ModelCall ==> t[j + 1].prompt == t[j].prompt
  }

  lemma KeepsPromptStep(a: Attempt, rest: seq<Attempt>)
    requires FailedCallsKeepPrompt(rest)
    requires a.stage == ModelCall && rest != [] ==> rest[0].prompt == a.prompt
    ensures FailedCallsKeepPrompt([a] + rest)
  {
    var t := [a] + rest;
    forall j | 0 <= j < |t| - 1 && t[j].stage == ModelCall ensures t[j + 1].prompt == t[j].prompt {
      assert t[j + 1] == rest[j] && (j > 0 ==> t[j] == rest[j - 1]);
    }
  }

  /** The prompt of an attempt, with the retry context it is made with. */
  lemma PromptWithContext(w: World, c: Case, i: nat, limit: nat, context: Option<string>)
    ensures OneAttempt(w, c, i, limit, context).attempt.prompt ==
      if context.None? then c.prompt else c.prompt + "\n\nRetry context:\n" + context.value + "\n"
  {
  }

  lemma FailedCallKeepsContext(w: World, c: Case, i: nat, limit: nat, context: Option<string>)
    ensures var step := OneAttempt(w, c, i, limit, context);
      && step.attempt.prompt == AppendRetryContext(c.prompt, context)
      && (step.attempt.stage == ModelCall ==> step.context == context)
  {
    forall run { StageRange(run); }
  }

  /** The attempts that follow one. */
  ghost function Following(w: World, c: Case, i: nat, limit: nat, step: Step): seq<Attempt> {
    if step.attempt.status == Passed then [] else Trajectory(w, c, i + 1, limit, step.context)
  }

  lemma TrajectoryUnfolds(w: World, c: Case, i: nat, limit: nat, context: Option<string>)
    ensures var step := OneAttempt(w, c, i, limit, context);
      Trajectory(w, c, i, limit, context) == if i > limit then [] else [step.attempt] + Following(w, c, i, limit, step)
  {
  }

  /** The first prompt carries the given context, and a failed model call is retried with
      the prompt it failed on. */
  lemma {:induction false} FailedCallKeepsPrompt(w: World, c: Case, i: nat, limit: nat, context: Option<string>)
    ensures var t := Trajectory(w, c, i, limit, context);
      && FailedCallsKeepPrompt(t)
      && (i <= limit ==> t != [])
      && (i <= limit ==>
           t[0].prompt ==
           (if context.None? then c.prompt else c.prompt + "\n\nRetry context:\n" + context.value + "\n"))
    decreases limit + 1 - i
  {
    if i <= limit {
      var step := OneAttempt(w, c, i, limit, context);
      FailedCallKeepsContext(w, c, i, limit, context);
      PromptWithContext(w, c, i, limit, context);
      TrajectoryUnfolds(w, c, i, limit, context);
      FailedCallKeepsPrompt(w, c, i + 1, limit, step.context);
      KeepsPromptStep(step.attempt, Following(w, c, i, limit, step));
    }
  }

  /** The attempts under a limit are the first attempts under any larger limit. */
  lemma {:induction false} TrajectoryPrefix(w: World, c: Case, i: nat, k: nat, n: nat, context: Option<string>)
    requires i <= k + 1 && k <= n
    ensures Trajectory(w, c, i, k, context) == Take(Trajectory(w, c, i, n, context), k + 1 - i)
    decreases k + 1 - i
  {
    if i <= k {
      var a, b := OneAttempt(w, c, i, k, context), OneAttempt(w, c, i, n, context);
      assert a.attempt == b.attempt;
      if a.attempt.status != Passed && i < k {
        assert a.context == b.context;
        TrajectoryPrefix(w, c, i + 1, k, n, a.context);
      }
    }
  }

  // ----- the whole suite ----------------------------------------------------------------

  datatype Summary = Summary(
    total: int, passed: int, cost: Option<Cost>, checkpoints: Option<seq<Checkpoint>>,
    maxAttempts: Option<int>, rows: seq<Row>)

  function RowOf(w: World, c: Case, limit: nat): Row
    requires limit >= 1
  {
    TrajectoryShape(w, c, 1, limit, None);
    var t := Attempts(w, c, limit);
    Row(c.id, t[|t| - 1].status, Some(t[|t| - 1].stage), Some(t), Some(CostOf(t)))
  }

  function RowsOf(w: World, cases: seq<Case>, limit: nat): (rows: seq<Row>)
    requires limit >= 1
    ensures |rows| == |cases|
  {
    if cases == [] then [] else RowsOf(w, cases[..|cases| - 1], limit) + [RowOf(w, cases[|cases| - 1], limit)]
  }

  function CountPassedRows(rows: seq<Row>): nat {
    if rows == [] then 0
    else CountPassedRows(rows[..|rows| - 1]) + if rows[|rows| - 1].status == Passed then 1 else 0
  }

  method RepairRow(w: World, c: Case, limit: nat) returns (row: Row)
    requires limit >= 1
    ensures row == RowOf(w, c, limit)
  {
    var attempts := RepairCase(w, c, limit);
    TrajectoryShape(w, c, 1, limit, None);
    var last := attempts[|attempts| - 1];
    var cost := AggregateAttemptCost(attempts);
    row := Row(c.id, last.status, Some(last.stage), Some(attempts), Some(cost));
  }

  /** What the runner reports for its result rows. */
  ghost function SummaryOf(rows: seq<Row>, limit: nat): Summary {
    Summary(|rows|, CountPassedRows(rows), Some(CostOf(AllAttempts(rows))),
            Some(Checkpoints(rows, limit)), Some(limit), rows)
  }

  method Summarize(rows: seq<Row>, limit: nat) returns (summary: Summary)
    ensures summary == SummaryOf(rows, limit)
  {
    var all: seq<Attempt> := [];
    var passed := 0;
    for i := 0 to |rows|
      invariant all == AllAttempts(rows[..i]) && passed == CountPassedRows(rows[..i])
    {
      assert rows[..i + 1][..i] == rows[..i];
      all := all + AttemptsOf(rows[i]);
      if rows[i].status == Passed { passed := passed + 1; }
    }
    assert rows[..|rows|] == rows;
    var cost := AggregateAttemptCost(all);
    var checkpoints := RepairPolicyCheckpoints(rows, Some(limit));
    summary := Summary(|rows|, passed, Some(cost), Some(checkpoints), Some(limit), rows);
  }

  /** One row for every case, in their order: its id, its attempts, their cost, and what the last came to. */
  lemma {:induction false} RowOfCase(w: World, cases: seq<Case>, limit: nat, i: nat)
    requires limit >= 1 && i < |cases|
    ensures var row, t := RowsOf(w, cases, limit)[i], Attempts(w, cases[i], limit);
      && row.caseId == cases[i].id && row.attempts == Some(t) && row.cost == Some(CostOf(t))
      && t != [] && row.status == t[|t| - 1].status && row.stage == Some(t[|t| - 1].stage)
  {
    TrajectoryShape(w, cases[i], 1, limit, None);
    if i < |cases| - 1 {
      RowOfCase(w, cases[..|cases| - 1], limit, i);
      assert RowsOf(w, cases, limit)[i] == RowsOf(w, cases[..|cases| - 1], limit)[i];
    }
  }

  ghost function PassedRows(rows: seq<Row>): set<int> {
    set i | 0 <= i < |rows| && rows[i].status == Passed
  }

  lemma PassedRowsStep(rows: seq<Row>, n: nat)
    requires |rows| == n + 1
    ensures PassedRows(rows) == PassedRows(rows[..n]) + if rows[n].status == Passed then {n} else {}
    ensures n !in PassedRows(rows[..n])
  {
    forall i | 0 <= i < n ensures rows[..n][i] == rows[i] {}
  }

  lemma {:induction false} PassedRowsCounted(rows: seq<Row>)
    ensures CountPassedRows(rows) == |PassedRows(rows)|
  {
    if rows == [] {
      assert PassedRows(rows) == {};
    } else {
      PassedRowsCounted(rows[..|rows| - 1]);
      PassedRowsStep(rows, |rows| - 1);
    }
  }

  /** Total and passed count of the summary: the number of rows, and of those that passed. */
  lemma SummaryCounts(rows: seq<Row>, limit: nat)
    ensures SummaryOf(rows, limit).total == |rows| && SummaryOf(rows, limit).passed == |PassedRows(rows)|
  {
    PassedRowsCounted(rows);
  }

  lemma RowsStep(w: World, cases: seq<Case>, limit: nat, i: nat)
    requires limit >= 1 && i < |cases|
    ensures RowsOf(w, cases[..i + 1], limit) == RowsOf(w, cases[..i], limit) + [RowOf(w, cases[i], limit)]
  {
    assert cases[..i + 1][..i] == cases[..i];
  }

  method RepairRows(w: World, cases: seq<Case>, limit: nat) returns (rows: seq<Row>)
    requires limit >= 1
    ensures rows == RowsOf(w, cases, limit)
  {
    rows := [];
    for i := 0 to |cases|
      invariant rows == RowsOf(w, cases[..i], limit)
    {
      RowsStep(w, cases, limit, i);
      var row := RepairRow(w, cases[i], limit);
      rows := rows + [row];
    }
    assert cases[..|cases|] == cases;
  }

  method RunSuite(w: World, cases: seq<Case>, limit: nat) returns (summary: Summary)
    requires limit >= 1
    ensures summary == SummaryOf(RowsOf(w, cases, limit), limit)
  {
    var rows := RepairRows(w, cases, limit);
    summary := Summarize(rows, limit);
  }

  // ----- one long run contains every shorter one ----------------------------------------

  lemma PassesWithinIffEndsPassed(t: seq<Attempt>, limit: nat)
    requires Shaped(t, 1, limit) && t != []
    ensures (exists a :: a in t && a.status == Passed) <==> t[|t| - 1].status == Passed
  {
    if t[|t| - 1].status == Passed { assert t[|t| - 1] in t; }
  }

  lemma AttemptsAtLimit(w: World, c: Case, k: nat, n: nat)
    requires 1 <= k <= n
    ensures var short := Attempts(w, c, k);
      && Take(Attempts(w, c, n), k) == short != []
      && ((exists a :: a in short && a.status == Passed) <==> short[|short| - 1].status == Passed)
  {
    TrajectoryPrefix(w, c, 1, k, n, None);
    TrajectoryShape(w, c, 1, k, None);
    PassesWithinIffEndsPassed(Attempts(w, c, k), k);
  }

  lemma {:induction false} RowsAtLimit(w: World, cases: seq<Case>, k: nat, n: nat)
    requires 1 <= k <= n
    ensures Selected(RowsOf(w, cases, n), k) == AllAttempts(RowsOf(w, cases, k))
    ensures CountPasses(RowsOf(w, cases, n), k) == CountPassedRows(RowsOf(w, cases, k))
  {
    if cases != [] {
      var m := |cases| - 1;
      RowsAtLimit(w, cases[..m], k, n);
      AttemptsAtLimit(w, cases[m], k, n);
      assert RowsOf(w, cases, n)[..m] == RowsOf(w, cases[..m], n);
      assert RowsOf(w, cases, k)[..m] == RowsOf(w, cases[..m], k);
    }
  }

  /** Checkpoint `k` of a run with limit `n` is what a run with limit `k` would have reported:
      the same passed count, the same cost. */
  lemma CheckpointIsShorterRun(w: World, cases: seq<Case>, k: nat, n: nat)
    requires 1 <= k <= n
    ensures Checkpoints(RowsOf(w, cases, n), n)[k - 1] ==
      Checkpoint(k, |cases|, CountPassedRows(RowsOf(w, cases, k)), CostOf(AllAttempts(RowsOf(w, cases, k))))
  {
    RowsAtLimit(w, cases, k, n);
    CheckpointIs(RowsOf(w, cases, n), n, k, AllAttempts(RowsOf(w, cases, k)), CountPassedRows(RowsOf(w, cases, k)));
  }
}
