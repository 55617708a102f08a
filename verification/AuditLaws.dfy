/**
 What the audit notices: which changes to one field of a clean record leave it clean, and that a clean
 trajectory under a declared limit can neither be shortened nor extended.
 */
module AuditLaws {
  import opened Wrappers
  import opened TokenUsage
  import opened RepairCost
  import opened RepairRun
  import opened CostAudit

  /** A recorded time that is there and not negative. */
  predicate Measured(r: Reading) { r.Micros? && r.us >= 0 }

  /** A recorded time that is not negative if it is there. */
  predicate NotNegative(r: Reading) { r.Micros? ==> r.us >= 0 }

  /** Changes of number, usage and metrics of a clean attempt. */
  lemma ChangedAttempt(a: Attempt, number: int, n: int, value: Json, time: Reading)
    requires AttemptConsistent(a, number)
    ensures AttemptConsistent(a.(number := n), number) <==> n == number
    ensures AttemptConsistent(a.(tokenUsage := value), number) <==> value == a.tokenUsage
    ensures AttemptConsistent(a.(apiUsage := value), number) <==>
      (value == JNull || value.JObject?) && NormalizeTokenUsage(value) == a.tokenUsage
    ensures AttemptConsistent(a.(apiTimings := value), number) <==> value == JNull || value.JObject?
    ensures AttemptConsistent(a.(modelWall := time), number) <==> Measured(time)
    ensures AttemptConsistent(a.(oracleWall := time), number) <==> NotNegative(time)
    ensures AttemptConsistent(a.(attemptWall := time), number) <==> NotNegative(time)
  {
  }

  /** Changes of the row beside its attempts. */
  lemma ChangedRow(
    row: Row, limit: Option<nat>, required: bool, status: Status, stage: Option<Stage>, cost: Option<Cost>)
    requires RowConsistent(row, limit, required) && row.attempts.Some?
    ensures RowConsistent(row.(status := status), limit, required) <==> status == row.status
    ensures RowConsistent(row.(stage := stage), limit, required) <==> stage == row.stage
    ensures RowConsistent(row.(cost := cost), limit, required) <==> cost == row.cost
    ensures RowConsistent(row.(attempts := None), limit, required) <==> required ==> row.status == PromptWritten
  {
  }

  /** In a clean row only the last attempt can have passed, and all are numbered from one. */
  lemma OnlyTheLastPassed(row: Row, limit: Option<nat>, required: bool, j: nat)
    requires RowConsistent(row, limit, required) && row.attempts.Some? && j < |row.attempts.value|
    ensures row.attempts.value[j].number == j + 1
    ensures row.attempts.value[j].status == Passed ==> j == |row.attempts.value| - 1
  {
  }

  lemma NoneIsNotEnough(row: Row, limit: Option<nat>, required: bool)
    requires row.attempts == Some([])
    ensures !RowConsistent(row, limit, required)
  {
  }

  /** Under a declared limit no attempt can be added to a clean row, whatever else is changed. */
  lemma CannotBeExtended(row: Row, other: Row, limit: nat, required: bool, more: seq<Attempt>)
    requires RowConsistent(row, Some(limit), required) && row.attempts.Some? && more != []
    requires other.attempts == Some(row.attempts.value + more)
    ensures !RowConsistent(other, Some(limit), required)
  {
    var t := row.attempts.value;
    var n := |t| - 1;
    if t[n].status == Passed {
      assert (t + more)[n] == t[n];
    }
  }

  /** Nor can the last attempts be taken away. */
  lemma CannotBeShortened(row: Row, other: Row, limit: nat, required: bool, n: nat)
    requires RowConsistent(row, Some(limit), required) && row.attempts.Some? && n < |row.attempts.value|
    requires other.attempts == Some(row.attempts.value[..n])
    ensures !RowConsistent(other, Some(limit), required)
  {
    if n > 0 { assert row.attempts.value[..n][n - 1] == row.attempts.value[n - 1]; }
  }

  /** The figures of a summary stand or fall together, and with required metrics they must be there
      with a limit of at least one. */
  lemma FiguresComeTogether(s: Summary, required: bool)
    requires Consistent(s, required)
    ensures s.cost.Some? <==> s.checkpoints.Some?
    ensures required ==> s.cost.Some? && s.maxAttempts.Some? && s.maxAttempts.value >= 1
    ensures s.cost.Some? && s.maxAttempts.Some? && s.maxAttempts.value >= 1 ==>
      |s.checkpoints.value| == s.maxAttempts.value
  {
  }

  /** Clean summaries have clean rows only. */
  lemma RowsAreClean(s: Summary, required: bool, i: nat)
    requires Consistent(s, required) && s.cost.Some? && i < |s.rows|
    ensures RowConsistent(
              s.rows[i],
              if s.maxAttempts.Some? && s.maxAttempts.value >= 1 then Some(s.maxAttempts.value) else None, required)
  {
  }
}
