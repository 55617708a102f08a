/**
 A trajectory attempt by attempt: with which prompt each was made, and what is recorded of it, in
 terms of what model, extraction and oracle gave.
 */
module RepairTrace {
  import opened Wrappers
  import opened TokenUsage
  import opened RepairCost
  import opened OracleStage
  import opened RepairRun

  /** The retry context `j` attempts after attempt `i`, which has the given one. */
  ghost function ContextAfter(w: World, c: Case, i: nat, limit: nat, context: Option<string>, j: nat): Option<string>
    decreases j
  {
    if j == 0 then context
    else ContextAfter(w, c, i + 1, limit, OneAttempt(w, c, i, limit, context).context, j - 1)
  }

  /** The attempt that is made then. */
  ghost function AttemptAfter(w: World, c: Case, i: nat, limit: nat, context: Option<string>, j: nat): Attempt {
    OneAttempt(w, c, i + j, limit, ContextAfter(w, c, i, limit, context, j)).attempt
  }

  lemma AttemptAfterStep(w: World, c: Case, i: nat, limit: nat, context: Option<string>, j: nat)
    requires j > 0
    ensures var next := OneAttempt(w, c, i, limit, context).context;
      AttemptAfter(w, c, i, limit, context, j) == AttemptAfter(w, c, i + 1, limit, next, j - 1)
  {
    assert i + j == i + 1 + (j - 1);
  }

  lemma FirstAttempt(w: World, c: Case, i: nat, limit: nat, context: Option<string>)
    requires Trajectory(w, c, i, limit, context) != []
    ensures Trajectory(w, c, i, limit, context)[0] == AttemptAfter(w, c, i, limit, context, 0)
  {
    TrajectoryUnfolds(w, c, i, limit, context);
  }

  lemma LaterAttempt(w: World, c: Case, i: nat, limit: nat, context: Option<string>, j: nat)
    requires 0 < j < |Trajectory(w, c, i, limit, context)|
    ensures var rest := Trajectory(w, c, i + 1, limit, OneAttempt(w, c, i, limit, context).context);
      j - 1 < |rest| && Trajectory(w, c, i, limit, context)[j] == rest[j - 1]
  {
    TrajectoryUnfolds(w, c, i, limit, context);
  }

  lemma {:induction false} AttemptAt(w: World, c: Case, i: nat, limit: nat, context: Option<string>, j: nat)
    requires j < |Trajectory(w, c, i, limit, context)|
    ensures Trajectory(w, c, i, limit, context)[j] == AttemptAfter(w, c, i, limit, context, j)
    decreases j
  {
    if j == 0 {
      FirstAttempt(w, c, i, limit, context);
    } else {
      LaterAttempt(w, c, i, limit, context, j);
      AttemptAt(w, c, i + 1, limit, OneAttempt(w, c, i, limit, context).context, j - 1);
      AttemptAfterStep(w, c, i, limit, context, j);
    }
  }

  lemma {:induction false} ContextStep(w: World, c: Case, i: nat, limit: nat, context: Option<string>, j: nat)
    ensures ContextAfter(w, c, i, limit, context, j + 1) ==
      OneAttempt(w, c, i + j, limit, ContextAfter(w, c, i, limit, context, j)).context
    decreases j
  {
    if j > 0 {
      ContextStep(w, c, i + 1, limit, OneAttempt(w, c, i, limit, context).context, j - 1);
      assert i + j == i + 1 + (j - 1);
    }
  }

  // ----- prompts ------------------------------------------------------------------------

  /** The reply holds text. */
  predicate Usable(reply: Reply) { reply.Replied? && reply.error.None? && reply.content.Some? }

  lemma FirstPrompt(w: World, c: Case, limit: nat)
    requires limit >= 1
    ensures Attempts(w, c, limit) != [] && Attempts(w, c, limit)[0].prompt == c.prompt
  {
  }

  lemma ContextOfFailure(w: World, c: Case, i: nat, limit: nat, context: Option<string>)
    requires i < limit && OneAttempt(w, c, i, limit, context).attempt.status != Passed
    ensures var step := OneAttempt(w, c, i, limit, context);
      var reply := w.model(c.id, i, step.attempt.prompt);
      if !Usable(reply) then step.context == context
      else
        var source := w.extract(reply.content.value);
        if source.None? then step.context == Some(w.extractContext(reply.content.value))
        else step.context == Some(w.oracleContext(w.oracle(c.id, i, source.value), source.value))
  {
  }

  /** After attempt `i` with the prompt `before` failed, the next is made with `after`: the same if the
      reply was unusable, and otherwise the base prompt with what extraction or oracle had to say. */
  ghost predicate RetriedWith(w: World, c: Case, i: nat, before: string, after: string) {
    var reply := w.model(c.id, i, before);
    if !Usable(reply) then after == before
    else
      var source := w.extract(reply.content.value);
      if source.None? then
        after == c.prompt + "\n\nRetry context:\n" + w.extractContext(reply.content.value) + "\n"
      else
        var run := w.oracle(c.id, i, source.value);
        after == c.prompt + "\n\nRetry context:\n" + w.oracleContext(run, source.value) + "\n"
  }

  lemma PromptAfterFailure(w: World, c: Case, i: nat, limit: nat, context: Option<string>)
    requires i < limit && OneAttempt(w, c, i, limit, context).attempt.status != Passed
    ensures var step := OneAttempt(w, c, i, limit, context);
      RetriedWith(w, c, i, step.attempt.prompt, OneAttempt(w, c, i + 1, limit, step.context).attempt.prompt)
  {
    ContextOfFailure(w, c, i, limit, context);
    PromptWithContext(w, c, i, limit, context);
    PromptWithContext(w, c, i + 1, limit, OneAttempt(w, c, i, limit, context).context);
  }

  lemma NotTheLast(w: World, c: Case, limit: nat, j: nat)
    requires j + 1 < |Attempts(w, c, limit)|
    ensures j + 1 < limit && Attempts(w, c, limit)[j].status != Passed
  {
    TrajectoryShape(w, c, 1, limit, None);
  }

  lemma NextAttempt(w: World, c: Case, limit: nat, j: nat)
    requires j + 1 < |Attempts(w, c, limit)|
    ensures var step := OneAttempt(w, c, j + 1, limit, ContextAfter(w, c, 1, limit, None, j));
      && Attempts(w, c, limit)[j] == step.attempt
      && Attempts(w, c, limit)[j + 1] == OneAttempt(w, c, j + 2, limit, step.context).attempt
  {
    AttemptAt(w, c, 1, limit, None, j);
    AttemptAt(w, c, 1, limit, None, j + 1);
    ContextStep(w, c, 1, limit, None, j);
  }

  /** The law of prompts over every trajectory. */
  lemma NextPrompt(w: World, c: Case, limit: nat, j: nat)
    requires j + 1 < |Attempts(w, c, limit)|
    ensures RetriedWith(w, c, j + 1, Attempts(w, c, limit)[j].prompt, Attempts(w, c, limit)[j + 1].prompt)
  {
    NotTheLast(w, c, limit, j);
    NextAttempt(w, c, limit, j);
    PromptAfterFailure(w, c, j + 1, limit, ContextAfter(w, c, 1, limit, None, j));
  }

  // ----- records ------------------------------------------------------------------------

  lemma StatusAndStage(w: World, c: Case, i: nat, limit: nat, context: Option<string>)
    ensures var a := OneAttempt(w, c, i, limit, context).attempt;
      var reply := w.model(c.id, i, a.prompt);
      if !Usable(reply) then a.status == ModelError && a.stage == ModelCall && a.oracleWall == Null
      else
        var source := w.extract(reply.content.value);
        if source.None? then a.status == ModelError && a.stage == ExtractSource && a.oracleWall == Null
        else
          var run := w.oracle(c.id, i, source.value);
          && a.status == (if run.returncode == 0 then Passed else Failed)
          && a.stage == OracleFailureStage(run) && a.oracleWall == Micros(run.wall)
  {
  }

  lemma Metrics(w: World, c: Case, i: nat, limit: nat, context: Option<string>)
    ensures var a := OneAttempt(w, c, i, limit, context).attempt;
      var reply := w.model(c.id, i, a.prompt);
      && a.number == i && a.modelWall == Micros(reply.wall) && a.attemptWall == Micros(w.clock(c.id, i))
      && (reply.CallFailed? ==> a.tokenUsage == a.apiUsage == a.apiTimings == JNull)
      && (reply.Replied? ==>
           && a.tokenUsage == NormalizeTokenUsage(reply.usage)
           && a.apiUsage == (if reply.usage.JObject? then reply.usage else JNull)
           && a.apiTimings == (if reply.timings.JObject? then reply.timings else JNull))
  {
  }

  /** What is recorded of attempt number `j + 1`. */
  lemma AttemptRecorded(w: World, c: Case, limit: nat, j: nat)
    requires j < |Attempts(w, c, limit)|
    ensures var a := Attempts(w, c, limit)[j];
      var reply := w.model(c.id, j + 1, a.prompt);
      && a.number == j + 1 && a.modelWall == Micros(reply.wall) && a.attemptWall == Micros(w.clock(c.id, j + 1))
      && (if !Usable(reply) then a.status == ModelError && a.stage == ModelCall && a.oracleWall == Null
          else
            var source := w.extract(reply.content.value);
            if source.None? then a.status == ModelError && a.stage == ExtractSource && a.oracleWall == Null
            else
              var run := w.oracle(c.id, j + 1, source.value);
              && a.status == (if run.returncode == 0 then Passed else Failed)
              && a.stage == OracleFailureStage(run) && a.oracleWall == Micros(run.wall))
      && (reply.CallFailed? ==> a.tokenUsage == a.apiUsage == a.apiTimings == JNull)
      && (reply.Replied? ==>
           && a.tokenUsage == NormalizeTokenUsage(reply.usage)
           && a.apiUsage == (if reply.usage.JObject? then reply.usage else JNull)
           && a.apiTimings == (if reply.timings.JObject? then reply.timings else JNull))
  {
    var context := ContextAfter(w, c, 1, limit, None, j);
    AttemptAt(w, c, 1, limit, None, j);
    StatusAndStage(w, c, j + 1, limit, context);
    Metrics(w, c, j + 1, limit, context);
  }
}
