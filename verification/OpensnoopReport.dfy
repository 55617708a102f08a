/**
 The report the opensnoop oracle prints, and the stage the runner's classifier makes of it: a
 failure in the oracle's own verifier-log checks is the one it cannot classify.
 */
module OpensnoopReport {
  import opened Wrappers
  import opened TokenUsage
  import opened RepairCost
  import opened OracleStage

  const LOAD_LOG_KEY: Name := OtherKey("load_log_semantics")

  /** What the oracle found out: two return codes and the outcomes of its checks, of the source text
      and of the verifier log. */
  datatype Outcome = Outcome(compile: int, load: int, source: seq<bool>, log: seq<bool>) {
    predicate Passes() { compile == 0 && load == 0 && false !in source + log }

    /** The report as far as it was filled in.  Names of checks, command lines and command outputs,
        which no tool looks up, are left out. */
    function Report(): Json {
      var checked := compile == 0 && load == 0;
      JObject(map[
        CompileKey := Command(compile),
        LoadKey := if compile == 0 then Command(load) else JNull,
        SourceSemanticsKey := Checks(if checked then source else []),
        LOAD_LOG_KEY := Checks(if checked then log else []),
        PassedKey := JBool(Passes())])
    }

    function Run(wall: nat): OracleRun {
      OracleRun(if Passes() then 0 else 1, Some(Report()), wall)
    }
  }

  function Command(code: int): Json { JObject(map[ReturnCodeKey := JInt(code)]) }

  function Checks(passed: seq<bool>): Json {
    JList(seq(|passed|, i requires 0 <= i < |passed| => JObject(map[PassedKey := JBool(passed[i])])))
  }

  lemma BadCheckIff(passed: seq<bool>)
    ensures (exists c :: c in Items(Checks(passed)) && BadCheck(c)) <==> false in passed
  {
    var items := Items(Checks(passed));
    if i :| 0 <= i < |passed| && !passed[i] { assert items[i] in items && BadCheck(items[i]); }
  }

  lemma ReportSections(o: Outcome)
    requires o.compile == 0 && o.load == 0
    ensures o.Report().Get(CompileKey) == Command(0) && o.Report().Get(LoadKey) == Command(0)
    ensures o.Report().Get(SourceSemanticsKey) == Checks(o.source)
    ensures forall key :: key in {MapSetupKey, SuccessLogChecksKey, FunctionalKey} ==> o.Report().Get(key) == JNull
  {
  }

  lemma CheckedStage(o: Outcome, wall: nat)
    requires o.compile == 0 && o.load == 0 && !o.Passes()
    ensures OracleFailureStage(o.Run(wall)) == if false in o.source then AuxiliaryProofPredicate else Oracle
  {
    ReportSections(o);
    BadCheckIff(o.source);
  }

  /** Every failure is classified by the first section that records one, except that of a log check,
      which ends in the generic stage. */
  lemma StageOfReport(o: Outcome, wall: nat)
    ensures OracleFailureStage(o.Run(wall)) ==
      if o.compile != 0 then Compile
      else if o.load != 0 then VerifierLoad
      else if false in o.source then AuxiliaryProofPredicate
      else if false in o.log then Oracle
      else StagePass
  {
    if o.compile == 0 && o.load == 0 && !o.Passes() { CheckedStage(o, wall); }
  }

  /** Both commands and all ten source checks succeed, and the last of the eight log checks fails: the
      path through the filter does not reach the cleanup. */
  const NO_CLEANUP_PATH: Outcome := Outcome(
    0, 0, [true, true, true, true, true, true, true, true, true, true],
    [true, true, true, true, true, true, true, false])
}
