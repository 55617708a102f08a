/**
 The cost of a list of repair attempts, and the checkpoints that a run with many attempts
 reports for every smaller attempt limit.  Times are whole microseconds.
 */
module RepairCost {
  import opened Wrappers
  import opened TokenUsage

  datatype Status = Passed | Failed | ModelError | PromptWritten | OtherStatus

  datatype Stage =
    | StagePass | PromptOnly | ModelCall | ExtractSource | Compile | MapSetup | VerifierLoad
    | FunctionalOracle | AuxiliaryProofPredicate | Oracle | OracleParse | OtherStage

  /** A wall time as recorded in an attempt. */
  datatype Reading = Absent | Null | Micros(us: int)

  datatype Attempt = Attempt(
    number: int, status: Status, stage: Stage, prompt: string,
    tokenUsage: Json, apiUsage: Json, apiTimings: Json,
    modelWall: Reading, oracleWall: Reading, attemptWall: Reading)

  datatype Cost = Cost(
    modelCalls: int, coverage: map<Field, int>, totals: map<Field, Option<int>>,
    modelWall: int, oracleWall: int, attemptWall: int)

  // ----- what the components mean -------------------------------------------------------

  predicate IsCall(a: Attempt) { a.modelWall != Absent }

  /** Python's isinstance(x, int), under which booleans count as 0 and 1. */
  function AsInt(value: Json): Option<int> {
    match value
    case JInt(n) => Some(n)
    case JBool(b) => Some(if b then 1 else 0)
    case _ => None
  }

  function ReportedBy(a: Attempt, field: Field): Option<int> {
    if IsCall(a) then AsInt(a.tokenUsage.Get(KeyOf(field))) else None
  }

  function Time(r: Reading): int {
    if r.Micros? then r.us else 0
  }

  /** The value of a measure of one attempt, summed. */
  function Total(attempts: seq<Attempt>, measure: Attempt -> int): int {
    if attempts == [] then 0
    else Total(attempts[..|attempts| - 1], measure) + measure(attempts[|attempts| - 1])
  }

  function CallMeasure(): Attempt -> int { a => if IsCall(a) then 1 else 0 }

  function ReportMeasure(field: Field): Attempt -> int { a => if ReportedBy(a, field).Some? then 1 else 0 }

  function TokenMeasure(field: Field): Attempt -> int {
    a => if ReportedBy(a, field).Some? then ReportedBy(a, field).value else 0
  }

  lemma {:induction false} TotalAppends(a: seq<Attempt>, b: seq<Attempt>, measure: Attempt -> int)
    ensures Total(a + b, measure) == Total(a, measure) + Total(b, measure)
  {
    if b == [] {
      assert a + b == a;
    } else {
      assert (a + b)[..|a + b| - 1] == a + b[..|b| - 1];
      TotalAppends(a, b[..|b| - 1], measure);
    }
  }

  lemma {:induction false} ReportsAtMostCalls(attempts: seq<Attempt>, field: Field)
    ensures 0 <= Total(attempts, ReportMeasure(field)) <= Total(attempts, CallMeasure())
  {
    if attempts != [] { ReportsAtMostCalls(attempts[..|attempts| - 1], field); }
  }

  /** A token total is known only if every model call reported the field. */
  function TokenTotal(attempts: seq<Attempt>, field: Field): Option<int> {
    if Total(attempts, ReportMeasure(field)) == Total(attempts, CallMeasure())
    then Some(Total(attempts, TokenMeasure(field))) else None
  }

  function ModelTime(): Attempt -> int { (a: Attempt) => Time(a.modelWall) }

  function OracleTime(): Attempt -> int { (a: Attempt) => Time(a.oracleWall) }

  function AttemptTime(): Attempt -> int { (a: Attempt) => Time(a.attemptWall) }

  function CostOf(attempts: seq<Attempt>): Cost {
    Cost(
      Total(attempts, CallMeasure()),
      Coverage(attempts, FIELDS),
      TokenTotals(attempts, FIELDS),
      Total(attempts, ModelTime()), Total(attempts, OracleTime()), Total(attempts, AttemptTime()))
  }

  method SumMeasure(attempts: seq<Attempt>, measure: Attempt -> int) returns (sum: int)
    ensures sum == Total(attempts, measure)
  {
    sum := 0;
    for i := 0 to |attempts|
      invariant sum == Total(attempts[..i], measure)
    {
      assert attempts[..i + 1][..i] == attempts[..i];
      sum := sum + measure(attempts[i]);
    }
    assert attempts[..|attempts|] == attempts;
  }

  function Coverage(attempts: seq<Attempt>, fields: seq<Field>): map<Field, int> {
    map f | f in fields :: Total(attempts, ReportMeasure(f))
  }

  function TokenTotals(attempts: seq<Attempt>, fields: seq<Field>): map<Field, Option<int>> {
    map f | f in fields :: TokenTotal(attempts, f)
  }

  lemma FieldStep(attempts: seq<Attempt>, fields: seq<Field>, field: Field)
    ensures Coverage(attempts, fields + [field])
         == Coverage(attempts, fields)[field := Total(attempts, ReportMeasure(field))]
    ensures TokenTotals(attempts, fields + [field])
         == TokenTotals(attempts, fields)[field := TokenTotal(attempts, field)]
  {
    assert forall f :: f in fields + [field] <==> f in fields || f == field;
  }

  method AggregateTokens(attempts: seq<Attempt>, calls: int)
    returns (coverage: map<Field, int>, totals: map<Field, Option<int>>)
    requires calls == Total(attempts, CallMeasure())
    ensures coverage == Coverage(attempts, FIELDS) && totals == TokenTotals(attempts, FIELDS)
  {
    coverage, totals := map[], map[];
    for i := 0 to |FIELDS|
      invariant coverage == Coverage(attempts, FIELDS[..i]) && totals == TokenTotals(attempts, FIELDS[..i])
    {
      var field := FIELDS[i];
      var reported := SumMeasure(attempts, ReportMeasure(field));
      var tokens := SumMeasure(attempts, TokenMeasure(field));
      coverage := coverage[field := reported];
      totals := totals[field := if reported == calls then Some(tokens) else None];
      FieldStep(attempts, FIELDS[..i], field);
      assert FIELDS[..i + 1] == FIELDS[..i] + [field];
    }
    assert FIELDS[..|FIELDS|] == FIELDS;
  }

  method AggregateAttemptCost(attempts: seq<Attempt>) returns (cost: Cost)
    ensures cost == CostOf(attempts)
  {
    var calls := SumMeasure(attempts, CallMeasure());
    var coverage, totals := AggregateTokens(attempts, calls);
    var modelWall := SumMeasure(attempts, ModelTime());
    var oracleWall := SumMeasure(attempts, OracleTime());
    var attemptWall := SumMeasure(attempts, AttemptTime());
    cost := Cost(calls, coverage, totals, modelWall, oracleWall, attemptWall);
  }

  // ----- cost is a homomorphism ---------------------------------------------------------

  function Plus(x: Option<int>, y: Option<int>): Option<int> {
    if x.Some? && y.Some? then Some(x.value + y.value) else None
  }

  /** Every field has an entry. */
  predicate Full<T>(m: map<Field, T>) {
    forall f :: f in FIELDS ==> f in m
  }

  function AddCoverage(x: map<Field, int>, y: map<Field, int>): map<Field, int>
    requires Full(x) && Full(y)
  {
    map f | f in FIELDS :: x[f] + y[f]
  }

  function AddTotals(x: map<Field, Option<int>>, y: map<Field, Option<int>>): map<Field, Option<int>>
    requires Full(x) && Full(y)
  {
    map f | f in FIELDS :: Plus(x[f], y[f])
  }

  /** Costs added component by component; an unknown token total absorbs. */
  function Combine(x: Cost, y: Cost): Cost
    requires Full(x.coverage) && Full(y.coverage) && Full(x.totals) && Full(y.totals)
  {
    Cost(
      x.modelCalls + y.modelCalls,
      AddCoverage(x.coverage, y.coverage),
      AddTotals(x.totals, y.totals),
      x.modelWall + y.modelWall, x.oracleWall + y.oracleWall, x.attemptWall + y.attemptWall)
  }

  lemma TokenTotalAppends(a: seq<Attempt>, b: seq<Attempt>, field: Field)
    ensures TokenTotal(a + b, field) == Plus(TokenTotal(a, field), TokenTotal(b, field))
  {
    ReportsAtMostCalls(a, field);
    ReportsAtMostCalls(b, field);
    TotalAppends(a, b, ReportMeasure(field));
    TotalAppends(a, b, CallMeasure());
    TotalAppends(a, b, TokenMeasure(field));
  }

  lemma CoverageAppends(a: seq<Attempt>, b: seq<Attempt>)
    ensures Coverage(a + b, FIELDS) == AddCoverage(Coverage(a, FIELDS), Coverage(b, FIELDS))
  {
    forall f | f in FIELDS
      ensures Coverage(a + b, FIELDS)[f] == Coverage(a, FIELDS)[f] + Coverage(b, FIELDS)[f]
    {
      TotalAppends(a, b, ReportMeasure(f));
    }
  }

  lemma TokenTotalsAppend(a: seq<Attempt>, b: seq<Attempt>)
    ensures TokenTotals(a + b, FIELDS) == AddTotals(TokenTotals(a, FIELDS), TokenTotals(b, FIELDS))
  {
    forall f | f in FIELDS ensures TokenTotal(a + b, f) == Plus(TokenTotal(a, f), TokenTotal(b, f)) {
      TokenTotalAppends(a, b, f);
    }
  }

  /** Attempt cost is a homomorphism: the cost of a concatenation is the combined cost. */
  lemma CostAppends(a: seq<Attempt>, b: seq<Attempt>)
    ensures CostOf(a + b) == Combine(CostOf(a), CostOf(b))
  {
    TotalAppends(a, b, CallMeasure());
    TotalAppends(a, b, ModelTime());
    TotalAppends(a, b, OracleTime());
    TotalAppends(a, b, AttemptTime());
    CoverageAppends(a, b);
    TokenTotalsAppend(a, b);
  }

  lemma TotalOfOne(a: Attempt, measure: Attempt -> int)
    ensures Total([a], measure) == measure(a)
  {
    assert [a][..0] == [];
  }

  /** The cost of one attempt, component by component; with the law above, that of all attempts. */
  lemma CostOfOne(a: Attempt)
    ensures var cost := CostOf([a]);
      && cost.modelCalls == (if a.modelWall.Absent? then 0 else 1)
      && cost.modelWall == (if a.modelWall.Micros? then a.modelWall.us else 0)
      && cost.oracleWall == (if a.oracleWall.Micros? then a.oracleWall.us else 0)
      && cost.attemptWall == (if a.attemptWall.Micros? then a.attemptWall.us else 0)
  {
    TotalOfOne(a, CallMeasure());
    TotalOfOne(a, ModelTime());
    TotalOfOne(a, OracleTime());
    TotalOfOne(a, AttemptTime());
  }

  lemma EveryField(field: Field)
    ensures field in FIELDS
  {
    match field
    case PromptTokens => assert FIELDS[0] == field;
    case CompletionTokens => assert FIELDS[1] == field;
    case TotalTokens => assert FIELDS[2] == field;
    case ReasoningTokens => assert FIELDS[3] == field;
    case CachedPromptTokens => assert FIELDS[4] == field;
  }

  lemma FieldOf(attempts: seq<Attempt>, field: Field)
    ensures field in CostOf(attempts).coverage && field in CostOf(attempts).totals
    ensures CostOf(attempts).coverage[field] == Total(attempts, ReportMeasure(field))
    ensures CostOf(attempts).totals[field] == TokenTotal(attempts, field)
  {
    EveryField(field);
  }

  /** What one attempt reports of a field: a call that reports it counts with its number, one that does
      not makes the total unknown. */
  lemma TokensOfOne(a: Attempt, field: Field)
    ensures var cost, value := CostOf([a]), a.tokenUsage.Get(KeyOf(field));
      && field in cost.coverage && field in cost.totals
      && (a.modelWall.Absent? ==> cost.coverage[field] == 0 && cost.totals[field] == Some(0))
      && (!a.modelWall.Absent? && value.JInt? ==>
           cost.coverage[field] == 1 && cost.totals[field] == Some(value.number))
      && (!a.modelWall.Absent? && !value.JInt? && !value.JBool? ==>
           cost.coverage[field] == 0 && cost.totals[field] == None)
  {
    FieldOf([a], field);
    TotalOfOne(a, CallMeasure());
    TotalOfOne(a, ReportMeasure(field));
    TotalOfOne(a, TokenMeasure(field));
  }

  lemma CostOfNone()
    ensures var cost := CostOf([]);
      && cost.modelCalls == cost.modelWall == cost.oracleWall == cost.attemptWall == 0
      && forall f :: f in FIELDS ==> f in cost.totals && cost.totals[f] == Some(0) && cost.coverage[f] == 0
  {
  }

  // ----- result rows and checkpoints ----------------------------------------------------

  /** A result row; prompt-only rows and rows of a local candidate have no attempts. */
  datatype Row = Row(
    caseId: string, status: Status, stage: Option<Stage>, attempts: Option<seq<Attempt>>, cost: Option<Cost>)

  datatype Checkpoint = Checkpoint(maxAttempts: nat, total: nat, passed: nat, cost: Cost)

  function Take<T>(s: seq<T>, n: nat): seq<T> {
    if n < |s| then s[..n] else s
  }

  function AttemptsOf(row: Row): seq<Attempt> {
    if row.attempts.Some? then row.attempts.value else []
  }

  predicate PassesWithin(row: Row, limit: nat) {
    exists a :: a in Take(AttemptsOf(row), limit) && a.status == Passed
  }

  /** All attempts of the rows that a policy with the limit would have made. */
  function Selected(rows: seq<Row>, limit: nat): seq<Attempt> {
    if rows == [] then []
    else Selected(rows[..|rows| - 1], limit) + Take(AttemptsOf(rows[|rows| - 1]), limit)
  }

  function AllAttempts(rows: seq<Row>): seq<Attempt> {
    if rows == [] then [] else AllAttempts(rows[..|rows| - 1]) + AttemptsOf(rows[|rows| - 1])
  }

  function CountPasses(rows: seq<Row>, limit: nat): nat {
    if rows == [] then 0
    else CountPasses(rows[..|rows| - 1], limit) + if PassesWithin(rows[|rows| - 1], limit) then 1 else 0
  }

  function CheckpointAt(rows: seq<Row>, limit: nat): Checkpoint {
    Checkpoint(limit, |rows|, CountPasses(rows, limit), CostOf(Selected(rows, limit)))
  }

  function Checkpoints(rows: seq<Row>, count: nat): (checkpoints: seq<Checkpoint>)
    ensures |checkpoints| == count
    ensures forall i :: 0 <= i < count ==> checkpoints[i] == CheckpointAt(rows, i + 1)
  {
    seq(count, i requires 0 <= i < count => CheckpointAt(rows, i + 1))
  }

  function LongestTrajectory(rows: seq<Row>): nat {
    if rows == [] then 0
    else
      var rest, n := LongestTrajectory(rows[..|rows| - 1]), |AttemptsOf(rows[|rows| - 1])|;
      if rest < n then n else rest
  }

  method LongestOf(rows: seq<Row>) returns (observed: nat)
    ensures observed == LongestTrajectory(rows)
  {
    observed := 0;
    for i := 0 to |rows|
      invariant observed == LongestTrajectory(rows[..i])
    {
      assert rows[..i + 1][..i] == rows[..i];
      if rows[i].attempts.Some? && observed < |rows[i].attempts.value| { observed := |rows[i].attempts.value|; }
    }
    assert rows[..|rows|] == rows;
  }

  method SelectPolicy(rows: seq<Row>, limit: nat) returns (selected: seq<Attempt>, passed: nat)
    ensures selected == Selected(rows, limit) && passed == CountPasses(rows, limit)
  {
    selected, passed := [], 0;
    for i := 0 to |rows|
      invariant selected == Selected(rows[..i], limit) && passed == CountPasses(rows[..i], limit)
    {
      assert rows[..i + 1][..i] == rows[..i];
      if rows[i].attempts.Some? {
        var policy := Take(rows[i].attempts.value, limit);
        selected := selected + policy;
        if exists a :: a in policy && a.status == Passed { passed := passed + 1; }
      } else {
        assert selected + [] == selected;
      }
    }
    assert rows[..|rows|] == rows;
  }

  lemma CheckpointsStep(rows: seq<Row>, n: nat)
    ensures Checkpoints(rows, n + 1) == Checkpoints(rows, n) + [CheckpointAt(rows, n + 1)]
  {
  }

  lemma CheckpointIs(rows: seq<Row>, n: nat, k: nat, selected: seq<Attempt>, passed: nat)
    requires 1 <= k <= n && Selected(rows, k) == selected && CountPasses(rows, k) == passed
    ensures Checkpoints(rows, n)[k - 1] == Checkpoint(k, |rows|, passed, CostOf(selected))
  {
  }

  method RepairPolicyCheckpoints(rows: seq<Row>, maxAttempts: Option<nat>) returns (checkpoints: seq<Checkpoint>)
    ensures checkpoints ==
            Checkpoints(rows, if maxAttempts.Some? then maxAttempts.value else LongestTrajectory(rows))
  {
    var observed := LongestOf(rows);
    var count := if maxAttempts.Some? then maxAttempts.value else observed;
    checkpoints := [];
    for limit := 1 to count + 1
      invariant checkpoints == Checkpoints(rows, limit - 1)
    {
      var selected, passed := SelectPolicy(rows, limit);
      var cost := AggregateAttemptCost(selected);
      CheckpointsStep(rows, limit - 1);
      checkpoints := checkpoints + [Checkpoint(limit, |rows|, passed, cost)];
    }
  }

  /** The costs of the rows one by one, combined. */
  function SumOfRowCosts(rows: seq<Row>): (c: Cost)
    ensures Full(c.coverage) && Full(c.totals)
  {
    if rows == [] then CostOf([]) else Combine(SumOfRowCosts(rows[..|rows| - 1]), CostOf(AttemptsOf(rows[|rows| - 1])))
  }

  lemma {:induction false} SummaryCostIsSumOfRowCosts(rows: seq<Row>)
    ensures CostOf(AllAttempts(rows)) == SumOfRowCosts(rows)
  {
    if rows != [] {
      var n := |rows| - 1;
      SummaryCostIsSumOfRowCosts(rows[..n]);
      CostAppends(AllAttempts(rows[..n]), AttemptsOf(rows[n]));
    }
  }

  /** The rows with a pass among their first `limit` attempts. */
  ghost function PassingRows(rows: seq<Row>, limit: nat): set<int> {
    set i | 0 <= i < |rows| && rows[i].attempts.Some? && PassAmong(rows[i].attempts.value, limit)
  }

  ghost predicate PassAmong(attempts: seq<Attempt>, limit: nat) {
    exists k :: 0 <= k < limit && k < |attempts| && attempts[k].status == Passed
  }

  lemma PassesWithinIff(row: Row, limit: nat)
    ensures PassesWithin(row, limit) <==> row.attempts.Some? && PassAmong(row.attempts.value, limit)
  {
    var t := Take(AttemptsOf(row), limit);
    if k :| 0 <= k < limit && k < |AttemptsOf(row)| && AttemptsOf(row)[k].status == Passed { assert t[k] in t; }
    if PassesWithin(row, limit) {
      var a :| a in t && a.status == Passed;
      var k :| 0 <= k < |t| && t[k] == a;
      assert row.attempts.value[k].status == Passed;
    }
  }

  lemma PassingRowsStep(rows: seq<Row>, limit: nat, n: nat)
    requires |rows| == n + 1
    ensures PassingRows(rows, limit) ==
      PassingRows(rows[..n], limit) + if PassesWithin(rows[n], limit) then {n} else {}
    ensures n !in PassingRows(rows[..n], limit)
  {
    PassesWithinIff(rows[n], limit);
    forall i | 0 <= i < n ensures rows[..n][i] == rows[i] {}
  }

  lemma {:induction false} CountIsCardinality(rows: seq<Row>, limit: nat)
    ensures CountPasses(rows, limit) == |PassingRows(rows, limit)|
  {
    if rows == [] {
      assert PassingRows(rows, limit) == {};
    } else {
      CountIsCardinality(rows[..|rows| - 1], limit);
      PassingRowsStep(rows, limit, |rows| - 1);
    }
  }

  /** The passed count of a checkpoint is the number of those rows. */
  lemma PassedCountIs(rows: seq<Row>, limit: nat)
    ensures CheckpointAt(rows, limit).maxAttempts == limit && CheckpointAt(rows, limit).total == |rows|
    ensures CheckpointAt(rows, limit).passed == |PassingRows(rows, limit)|
  {
    CountIsCardinality(rows, limit);
  }

  lemma {:induction false} CallsNonNegative(attempts: seq<Attempt>)
    ensures Total(attempts, CallMeasure()) >= 0
  {
    ReportsAtMostCalls(attempts, TotalTokens);
  }

  lemma TakeGrows<T>(s: seq<T>, k: nat, n: nat)
    requires k <= n
    ensures Take(s, k) <= Take(s, n)
  {
  }

  lemma {:induction false} PassesGrow(rows: seq<Row>, k: nat, n: nat)
    requires k <= n
    ensures CountPasses(rows, k) <= CountPasses(rows, n)
  {
    if rows != [] {
      PassesGrow(rows[..|rows| - 1], k, n);
      TakeGrows(AttemptsOf(rows[|rows| - 1]), k, n);
      var small, large := Take(AttemptsOf(rows[|rows| - 1]), k), Take(AttemptsOf(rows[|rows| - 1]), n);
      assert forall a :: a in small ==> a in large;
    }
  }

  lemma {:induction false} CallsGrow(rows: seq<Row>, k: nat, n: nat)
    requires k <= n
    ensures Total(Selected(rows, k), CallMeasure()) <= Total(Selected(rows, n), CallMeasure())
  {
    if rows != [] {
      var m := |rows| - 1;
      CallsGrow(rows[..m], k, n);
      var small, large := Take(AttemptsOf(rows[m]), k), Take(AttemptsOf(rows[m]), n);
      TakeGrows(AttemptsOf(rows[m]), k, n);
      assert large == small + large[|small|..];
      TotalAppends(small, large[|small|..], CallMeasure());
      CallsNonNegative(large[|small|..]);
      TotalAppends(Selected(rows[..m], k), small, CallMeasure());
      TotalAppends(Selected(rows[..m], n), large, CallMeasure());
    }
  }

  /** A larger limit never lowers the passed count or the number of model calls. */
  lemma CheckpointsGrow(rows: seq<Row>, k: nat, n: nat)
    requires k <= n
    ensures CheckpointAt(rows, k).passed <= CheckpointAt(rows, n).passed
    ensures CheckpointAt(rows, k).cost.modelCalls <= CheckpointAt(rows, n).cost.modelCalls
  {
    PassesGrow(rows, k, n);
    CallsGrow(rows, k, n);
  }

  /** A limit no trajectory exceeds selects everything. */
  lemma {:induction false} LargeLimitSelectsAll(rows: seq<Row>, limit: nat)
    requires forall row :: row in rows ==> |AttemptsOf(row)| <= limit
    ensures Selected(rows, limit) == AllAttempts(rows)
  {
    if rows != [] {
      assert rows[|rows| - 1] in rows;
      LargeLimitSelectsAll(rows[..|rows| - 1], limit);
    }
  }
}
