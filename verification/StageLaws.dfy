/**
 When a failed oracle run ends in each stage, in terms of the sections of its report: the first
 section that records a failure decides, in the order compile, map setup, load, the two lists of
 checks, and then the first functional test that fails.
 */
module StageLaws {
  import opened Wrappers
  import opened TokenUsage
  import opened RepairCost
  import opened OracleStage

  /** A section of the report, null if there is none. */
  function Section(report: map<Name, Json>, key: Name): Json {
    if key in report then report[key] else JNull
  }

  /** An object that does not record the return code zero. */
  ghost predicate FailedCommand(value: Json) {
    value.JObject? &&
    (ReturnCodeKey in value.fields ==>
       value.fields[ReturnCodeKey] != JInt(0) && value.fields[ReturnCodeKey] != JBool(false))
  }

  /** An object that does not record a pass. */
  ghost predicate FailedCheck(value: Json) {
    value.JObject? && (PassedKey in value.fields ==> value.fields[PassedKey] != JBool(true))
  }

  ghost predicate SomeFailedCommand(section: Json) {
    section.JList? && exists x :: x in section.items && FailedCommand(x)
  }

  ghost predicate SomeFailedCheck(section: Json) {
    section.JList? && exists x :: x in section.items && FailedCheck(x)
  }

  /** A map update of the functional test failed. */
  ghost predicate FailedUpdate(test: Json) {
    test.JObject? && MapUpdatesKey in test.fields && SomeFailedCommand(test.fields[MapUpdatesKey])
  }

  /** Number `i` is the first functional test that fails, in setup or in outcome. */
  ghost predicate FirstFailing(tests: seq<Json>, i: int) {
    && 0 <= i < |tests| && (FailedUpdate(tests[i]) || FailedCheck(tests[i]))
    && forall j :: 0 <= j < i ==> !FailedUpdate(tests[j]) && !FailedCheck(tests[j])
  }

  /** The functional tests of the report. */
  function Tests(report: map<Name, Json>): seq<Json> {
    if Section(report, FunctionalKey).JList? then Section(report, FunctionalKey).items else []
  }

  lemma SameReadings(value: Json)
    ensures BadCommand(value) <==> FailedCommand(value)
    ensures BadCheck(value) <==> FailedCheck(value)
    ensures BadSetup(value) <==> FailedUpdate(value)
  {
  }

  lemma {:induction false} FirstFailingDecides(tests: seq<Json>, i: nat)
    requires FirstFailing(tests, i)
    ensures FunctionalStage(tests) == Some(if FailedUpdate(tests[i]) then MapSetup else FunctionalOracle)
  {
    SameReadings(tests[0]);
    if i > 0 {
      forall j | 0 <= j < i - 1 ensures !FailedUpdate(tests[1..][j]) && !FailedCheck(tests[1..][j]) {
        assert tests[1..][j] == tests[j + 1];
      }
      FirstFailingDecides(tests[1..], i - 1);
    }
  }

  lemma {:induction false} NoneFailing(tests: seq<Json>)
    ensures FunctionalStage(tests).None? <==> forall i :: !FirstFailing(tests, i)
  {
    if i :| FirstFailing(tests, i) {
      FirstFailingDecides(tests, i);
    } else if tests != [] {
      SameReadings(tests[0]);
      assert !FirstFailing(tests, 0);
      forall i ensures !FirstFailing(tests[1..], i) {
        if FirstFailing(tests[1..], i) {
          forall j | 0 <= j < i + 1 ensures !FailedUpdate(tests[j]) && !FailedCheck(tests[j]) {
            if j > 0 { assert tests[1..][j - 1] == tests[j]; }
          }
          assert FirstFailing(tests, i + 1);
        }
      }
      NoneFailing(tests[1..]);
    }
  }

  /** A run that failed and printed an object. */
  function FailedRun(returncode: int, report: map<Name, Json>, wall: nat): OracleRun {
    OracleRun(returncode, Some(JObject(report)), wall)
  }

  ghost predicate CompileFails(report: map<Name, Json>) { FailedCommand(Section(report, CompileKey)) }

  ghost predicate SetupFails(report: map<Name, Json>) { SomeFailedCommand(Section(report, MapSetupKey)) }

  ghost predicate LoadFails(report: map<Name, Json>) { FailedCommand(Section(report, LoadKey)) }

  ghost predicate ChecksFail(report: map<Name, Json>) {
    SomeFailedCheck(Section(report, SuccessLogChecksKey)) || SomeFailedCheck(Section(report, SourceSemanticsKey))
  }

  lemma Readings(report: map<Name, Json>)
    ensures BadCommand(JObject(report).Get(CompileKey)) <==> CompileFails(report)
    ensures BadCommand(JObject(report).Get(LoadKey)) <==> LoadFails(report)
    ensures (exists s :: s in Items(JObject(report).Get(MapSetupKey)) && BadCommand(s)) <==> SetupFails(report)
    ensures Items(JObject(report).Get(FunctionalKey)) == Tests(report)
  {
    SameReadings(Section(report, CompileKey));
    SameReadings(Section(report, LoadKey));
    forall s { SameReadings(s); }
  }

  lemma CheckReadings(report: map<Name, Json>)
    ensures ChecksFail(report) <==>
      || (exists c :: c in Items(JObject(report).Get(SuccessLogChecksKey)) && BadCheck(c))
      || (exists c :: c in Items(JObject(report).Get(SourceSemanticsKey)) && BadCheck(c))
  {
    forall c { SameReadings(c); }
  }

  /** Nothing before the functional tests failed. */
  ghost predicate ReachesTests(report: map<Name, Json>) {
    !CompileFails(report) && !SetupFails(report) && !LoadFails(report) && !ChecksFail(report)
  }

  lemma StageBeforeTests(returncode: int, report: map<Name, Json>, wall: nat)
    requires returncode != 0
    ensures OracleFailureStage(FailedRun(returncode, report, wall)) ==
      if CompileFails(report) then Compile
      else if SetupFails(report) then MapSetup
      else if LoadFails(report) then VerifierLoad
      else if ChecksFail(report) then AuxiliaryProofPredicate
      else if FunctionalStage(Tests(report)).Some? then FunctionalStage(Tests(report)).value
      else Oracle
  {
    Readings(report);
    CheckReadings(report);
  }

  lemma TestStage(tests: seq<Json>)
    ensures FunctionalStage(tests) == Some(MapSetup) <==>
      exists i :: FirstFailing(tests, i) && FailedUpdate(tests[i])
    ensures FunctionalStage(tests) == Some(FunctionalOracle) <==>
      exists i :: FirstFailing(tests, i) && !FailedUpdate(tests[i])
    ensures FunctionalStage(tests) in {None, Some(MapSetup), Some(FunctionalOracle)}
  {
    NoneFailing(tests);
    forall i | FirstFailing(tests, i)
      ensures FunctionalStage(tests) == Some(if FailedUpdate(tests[i]) then MapSetup else FunctionalOracle)
    {
      FirstFailingDecides(tests, i);
    }
  }

  /** The stage of every failed run that printed an object. */
  lemma StageIffs(returncode: int, report: map<Name, Json>, wall: nat)
    requires returncode != 0
    ensures var stage := OracleFailureStage(FailedRun(returncode, report, wall));
      && (stage == Compile <==> CompileFails(report))
      && (stage == VerifierLoad <==> !CompileFails(report) && !SetupFails(report) && LoadFails(report))
      && (stage == AuxiliaryProofPredicate <==>
           !CompileFails(report) && !SetupFails(report) && !LoadFails(report) && ChecksFail(report))
      && (stage == FunctionalOracle <==>
           ReachesTests(report) && exists i :: FirstFailing(Tests(report), i) && !FailedUpdate(Tests(report)[i]))
      && (stage == MapSetup <==>
           || (!CompileFails(report) && SetupFails(report))
           || (ReachesTests(report) && exists i :: FirstFailing(Tests(report), i) && FailedUpdate(Tests(report)[i])))
      && (stage == Oracle <==> ReachesTests(report) && forall i :: !FirstFailing(Tests(report), i))
  {
    StageBeforeTests(returncode, report, wall);
    TestStage(Tests(report));
    NoneFailing(Tests(report));
  }

  /** A run that printed no object. */
  lemma NoObject(completed: OracleRun)
    requires completed.returncode != 0 && (completed.report.Some? ==> !completed.report.value.JObject?)
    ensures OracleFailureStage(completed) == OracleParse
  {
  }
}
