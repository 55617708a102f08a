/** How the runner classifies a failed oracle run from the report the oracle printed. */
module OracleStage {
  import opened Wrappers
  import opened TokenUsage
  import opened RepairCost

  /** An oracle process: `report` is its standard output as JSON, if it is JSON. */
  datatype OracleRun = OracleRun(returncode: int, report: Option<Json>, wall: nat)

  /** The elements a Python loop visits; anything that is not a list offers none. */
  function Items(section: Json): seq<Json> {
    if section.JList? then section.items else []
  }

  /** Python's value != 0, under which false equals 0. */
  predicate Nonzero(value: Json) {
    value != JInt(0) && value != JBool(false)
  }

  /** An object whose return code is not zero. */
  predicate BadCommand(report: Json) {
    report.JObject? && Nonzero(report.Get(ReturnCodeKey))
  }

  /** An object that does not record a pass. */
  predicate BadCheck(check: Json) {
    check.JObject? && check.Get(PassedKey) != JBool(true)
  }

  predicate BadSetup(functional: Json) {
    functional.JObject? && exists update :: update in Items(functional.Get(MapUpdatesKey)) && BadCommand(update)
  }

  /** The stage of the first functional test that failed, in setup or in outcome. */
  function FunctionalStage(tests: seq<Json>): Option<Stage> {
    if tests == [] then None
    else if BadSetup(tests[0]) then Some(MapSetup)
    else if BadCheck(tests[0]) then Some(FunctionalOracle)
    else FunctionalStage(tests[1..])
  }

  function OracleFailureStage(completed: OracleRun): Stage {
    if completed.returncode == 0 then StagePass
    else if completed.report.None? || !completed.report.value.JObject? then OracleParse
    else
      var report := completed.report.value;
      if BadCommand(report.Get(CompileKey)) then Compile
      else if exists s :: s in Items(report.Get(MapSetupKey)) && BadCommand(s) then MapSetup
      else if BadCommand(report.Get(LoadKey)) then VerifierLoad
      else if exists c :: c in Items(report.Get(SuccessLogChecksKey)) && BadCheck(c) then AuxiliaryProofPredicate
      else if exists c :: c in Items(report.Get(SourceSemanticsKey)) && BadCheck(c) then AuxiliaryProofPredicate
      else
        var f := FunctionalStage(Items(report.Get(FunctionalKey)));
        if f.Some? then f.value else Oracle
  }

  /** No section the classifier looks at records a failure. */
  ghost predicate NothingRecorded(report: Json) {
    && !BadCommand(report.Get(CompileKey))
    && !BadCommand(report.Get(LoadKey))
    && (forall s :: s in Items(report.Get(MapSetupKey)) ==> !BadCommand(s))
    && (forall c :: c in Items(report.Get(SuccessLogChecksKey)) ==> !BadCheck(c))
    && (forall c :: c in Items(report.Get(SourceSemanticsKey)) ==> !BadCheck(c))
    && forall t :: t in Items(report.Get(FunctionalKey)) ==> !BadSetup(t) && !BadCheck(t)
  }

  lemma {:induction false} NoFunctionalStage(tests: seq<Json>)
    ensures FunctionalStage(tests).None? <==> forall t :: t in tests ==> !BadSetup(t) && !BadCheck(t)
    ensures FunctionalStage(tests).Some? ==> FunctionalStage(tests).value in {MapSetup, FunctionalOracle}
  {
    if tests != [] {
      NoFunctionalStage(tests[1..]);
      assert forall t :: t in tests <==> t == tests[0] || t in tests[1..];
    }
  }

  /** The stages an oracle run can end in; only a zero return code is a pass. */
  lemma StageRange(completed: OracleRun)
    ensures OracleFailureStage(completed) == StagePass <==> completed.returncode == 0
    ensures OracleFailureStage(completed) in
      {StagePass, Compile, MapSetup, VerifierLoad, FunctionalOracle, AuxiliaryProofPredicate, Oracle, OracleParse}
  {
    if completed.report.Some? {
      NoFunctionalStage(Items(completed.report.value.Get(FunctionalKey)));
    }
  }

  /** The run failed, and its output is not a JSON object or records no failure where the classifier
      looks. */
  ghost predicate Unclassified(completed: OracleRun) {
    && completed.returncode != 0
    && (completed.report.None? || !completed.report.value.JObject? || NothingRecorded(completed.report.value))
  }

  /** A failing run ends in one of the two unclassified stages exactly when its output is not a
      JSON object or the object records no failure where the classifier looks. */
  lemma UnclassifiedIff(completed: OracleRun)
    ensures OracleFailureStage(completed) in {Oracle, OracleParse} <==> Unclassified(completed)
  {
    if completed.report.Some? {
      NoFunctionalStage(Items(completed.report.value.Get(FunctionalKey)));
    }
  }
}
