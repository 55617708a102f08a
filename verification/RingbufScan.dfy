/**
 The scanners that follow ring buffer records through a verifier log.  Each loop is proved
 equal to a specification by quantifiers over line numbers, in which the state of a register
 at a line is what the latest line that touched it says.
 */
module RingbufScan {
  import opened Wrappers
  import opened FiniteSets
  import opened LogLines

  /** Lines after which the tracked refs of a register are what the line itself says. */
  predicate Touches(line: Line, register: nat) {
    line.Resets() || line.Mentions(register)
  }

  /** Line `j` says that the register points to the record. */
  ghost predicate SaysRef(log: seq<Line>, j: int, register: nat, size: int, ref: nat) {
    0 <= j < |log| && ref in log[j].Refs(register, size)
  }

  /** No line after `j`, up to `i`, touches the register. */
  ghost predicate Untouched(log: seq<Line>, j: int, i: int, register: nat) {
    forall k :: 0 <= j < k <= i && k < |log| ==> !Touches(log[k], register)
  }

  /** At line `i`, its own state included, the register points to the record. */
  ghost predicate RefAt(log: seq<Line>, i: int, register: nat, size: int, ref: nat) {
    exists j :: j <= i < |log| && SaysRef(log, j, register, size, ref) && Untouched(log, j, i, register)
  }

  lemma RefAtStep(log: seq<Line>, i: nat, register: nat, size: int, ref: nat)
    requires i < |log|
    ensures RefAt(log, i, register, size, ref) <==>
      if Touches(log[i], register) then ref in log[i].Refs(register, size)
      else RefAt(log, i - 1, register, size, ref)
  {
    if RefAt(log, i, register, size, ref) {
      var j :| j <= i && SaysRef(log, j, register, size, ref) && Untouched(log, j, i, register);
      if j < i { assert Untouched(log, j, i - 1, register); }
    }
    if Touches(log[i], register) {
      if ref in log[i].Refs(register, size) {
        assert SaysRef(log, i, register, size, ref) && Untouched(log, i, i, register);
      }
    } else if RefAt(log, i - 1, register, size, ref) {
      var j :| j <= i - 1 && SaysRef(log, j, register, size, ref) && Untouched(log, j, i - 1, register);
      assert Untouched(log, j, i, register);
    }
  }

  /** Line `j` of the trace stores a wanted value to the record. */
  ghost predicate Writes(log: seq<Line>, j: int, wanted: Option<set<int>>, offset: int, size: int, ref: nat) {
    Active(log, j) && ref in log[j].StoredRefs(wanted, offset, size)
  }

  /** No line between `j` and `i` is a reset. */
  ghost predicate NoReset(log: seq<Line>, j: int, i: int) {
    forall k :: 0 <= j < k < i && k < |log| ==> !log[k].Resets()
  }

  /** Before line `i` a wanted value was stored to the record, with no reset in between. */
  ghost predicate WrittenBefore(log: seq<Line>, i: int, wanted: Option<set<int>>, offset: int, size: int, ref: nat) {
    exists j :: j < i <= |log| && Writes(log, j, wanted, offset, size, ref) && NoReset(log, j, i)
  }

  lemma WrittenBeforeStep(log: seq<Line>, i: nat, wanted: Option<set<int>>, offset: int, size: int, ref: nat)
    requires i < |log|
    ensures WrittenBefore(log, i + 1, wanted, offset, size, ref) <==>
      !log[i].Resets() &&
      (WrittenBefore(log, i, wanted, offset, size, ref) || Writes(log, i, wanted, offset, size, ref))
  {
    if WrittenBefore(log, i + 1, wanted, offset, size, ref) {
      var j :| j < i + 1 && Writes(log, j, wanted, offset, size, ref) && NoReset(log, j, i + 1);
      if j < i { assert NoReset(log, j, i); }
    }
    if WrittenBefore(log, i, wanted, offset, size, ref) && !log[i].Resets() {
      var j :| j < i && Writes(log, j, wanted, offset, size, ref) && NoReset(log, j, i);
      assert NoReset(log, j, i + 1);
    }
    if Writes(log, i, wanted, offset, size, ref) { assert NoReset(log, i, i + 1); }
  }

  /** At the helper call the first argument is a record that was written before. */
  ghost predicate Justified(log: seq<Line>, i: int, wanted: Option<set<int>>, offset: int, size: int) {
    exists ref :: RefAt(log, i, 1, size, ref) && WrittenBefore(log, i, wanted, offset, size, ref)
  }

  /** The helper is called in the trace, and every call is justified. */
  ghost predicate WrittenBeforeEveryCall(
    log: seq<Line>, helper: string, wanted: Option<set<int>>, offset: int, size: int)
  {
    && (exists i :: HelperLine(log, i, helper))
    && forall i :: HelperLine(log, i, helper) ==> Justified(log, i, wanted, offset, size)
  }

  /** What the path-sensitive scan knows after the first `n` lines. */
  ghost predicate Tracks(
    log: seq<Line>, n: nat, wanted: Option<set<int>>, offset: int, size: int,
    inTrace: bool, written: set<nat>, r1: set<nat>)
  {
    && inTrace == Traced(log, n)
    && (forall ref :: ref in written <==> WrittenBefore(log, n, wanted, offset, size, ref))
    && (inTrace ==> forall ref :: ref in r1 <==> RefAt(log, n - 1, 1, size, ref))
  }

  lemma ResetStep(
    log: seq<Line>, n: nat, wanted: Option<set<int>>, offset: int, size: int,
    inTrace: bool, written: set<nat>, r1: set<nat>)
    requires n < |log| && log[n].Resets() && Tracks(log, n, wanted, offset, size, inTrace, written, r1)
    ensures Tracks(log, n + 1, wanted, offset, size, inTrace || log[n].IsStart(), {}, log[n].Refs(1, size))
  {
    TracedStep(log, n);
    forall ref
      ensures RefAt(log, n, 1, size, ref) <==> ref in log[n].Refs(1, size)
      ensures !WrittenBefore(log, n + 1, wanted, offset, size, ref)
    {
      RefAtStep(log, n, 1, size, ref);
      WrittenBeforeStep(log, n, wanted, offset, size, ref);
    }
  }

  lemma OutsideStep(
    log: seq<Line>, n: nat, wanted: Option<set<int>>, offset: int, size: int, written: set<nat>, r1: set<nat>)
    requires n < |log| && !log[n].Resets() && Tracks(log, n, wanted, offset, size, false, written, r1)
    ensures Tracks(log, n + 1, wanted, offset, size, false, written, r1)
  {
    TracedStep(log, n);
    forall ref
      ensures WrittenBefore(log, n + 1, wanted, offset, size, ref) <==> WrittenBefore(log, n, wanted, offset, size, ref)
    {
      WrittenBeforeStep(log, n, wanted, offset, size, ref);
    }
  }

  lemma InsideStep(
    log: seq<Line>, n: nat, wanted: Option<set<int>>, offset: int, size: int, written: set<nat>, r1: set<nat>)
    requires n < |log| && !log[n].Resets() && Tracks(log, n, wanted, offset, size, true, written, r1)
    ensures Tracks(log, n + 1, wanted, offset, size, true, written + log[n].StoredRefs(wanted, offset, size),
                   if log[n].Mentions(1) then log[n].Refs(1, size) else r1)
  {
    TracedStep(log, n);
    forall ref
      ensures RefAt(log, n, 1, size, ref) <==>
        if log[n].Mentions(1) then ref in log[n].Refs(1, size) else RefAt(log, n - 1, 1, size, ref)
      ensures WrittenBefore(log, n + 1, wanted, offset, size, ref) <==>
        WrittenBefore(log, n, wanted, offset, size, ref) || ref in log[n].StoredRefs(wanted, offset, size)
    {
      RefAtStep(log, n, 1, size, ref);
      WrittenBeforeStep(log, n, wanted, offset, size, ref);
      assert Active(log, n);
    }
  }

  /** The test made at a helper call, with the first argument's state on the line applied. */
  lemma CallJustifiedIff(
    log: seq<Line>, n: nat, wanted: Option<set<int>>, offset: int, size: int, written: set<nat>, r1: set<nat>)
    requires n < |log| && !log[n].Resets() && Tracks(log, n, wanted, offset, size, true, written, r1)
    ensures Justified(log, n, wanted, offset, size) <==>
      written * (if log[n].Mentions(1) then log[n].Refs(1, size) else r1) != {}
  {
    var now := if log[n].Mentions(1) then log[n].Refs(1, size) else r1;
    forall ref ensures ref in now <==> RefAt(log, n, 1, size, ref) { RefAtStep(log, n, 1, size, ref); }
    if Justified(log, n, wanted, offset, size) {
      var ref :| RefAt(log, n, 1, size, ref) && WrittenBefore(log, n, wanted, offset, size, ref);
      assert ref in written * now;
    }
    if ref :| ref in written * now {
      assert RefAt(log, n, 1, size, ref);
    } else {
      assert written * now == {};
    }
  }

  /** What has been decided after the first `n` lines. */
  ghost predicate Judges(
    log: seq<Line>, n: nat, helper: string, wanted: Option<set<int>>, offset: int, size: int, sawHelper: bool)
  {
    && (sawHelper <==> exists i :: i < n && HelperLine(log, i, helper))
    && forall i :: i < n && HelperLine(log, i, helper) ==> Justified(log, i, wanted, offset, size)
  }

  lemma OtherLine(
    log: seq<Line>, n: nat, helper: string, wanted: Option<set<int>>, offset: int, size: int, sawHelper: bool)
    requires n < |log| && Judges(log, n, helper, wanted, offset, size, sawHelper) && !HelperLine(log, n, helper)
    ensures Judges(log, n + 1, helper, wanted, offset, size, sawHelper)
  {
  }

  lemma CallLine(
    log: seq<Line>, n: nat, helper: string, wanted: Option<set<int>>, offset: int, size: int, sawHelper: bool,
    written: set<nat>, r1: set<nat>)
    requires n < |log| && Judges(log, n, helper, wanted, offset, size, sawHelper) && HelperLine(log, n, helper)
    requires Tracks(log, n, wanted, offset, size, true, written, r1)
    ensures var now := if log[n].Mentions(1) then log[n].Refs(1, size) else r1;
      if now == {} || written * now == {} then !WrittenBeforeEveryCall(log, helper, wanted, offset, size)
      else Judges(log, n + 1, helper, wanted, offset, size, true)
  {
    CallJustifiedIff(log, n, wanted, offset, size, written, r1);
  }

  lemma JudgesAll(log: seq<Line>, helper: string, wanted: Option<set<int>>, offset: int, size: int, sawHelper: bool)
    requires Judges(log, |log|, helper, wanted, offset, size, sawHelper)
    ensures sawHelper <==> WrittenBeforeEveryCall(log, helper, wanted, offset, size)
  {
  }

  method RingbufWrittenRefsBeforeHelper(
    log: seq<Line>, helper: string, wanted: Option<set<int>>, offset: int, size: int) returns (accepted: bool)
    ensures accepted <==> WrittenBeforeEveryCall(log, helper, wanted, offset, size)
  {
    var inTrace, sawHelper := false, false;
    var written: set<nat>, r1: set<nat> := {}, {};
    for n := 0 to |log|
      invariant Tracks(log, n, wanted, offset, size, inTrace, written, r1)
      invariant Judges(log, n, helper, wanted, offset, size, sawHelper)
    {
      var line := log[n];
      if line.Resets() || !inTrace { OtherLine(log, n, helper, wanted, offset, size, sawHelper); }
      if line.Resets() { ResetStep(log, n, wanted, offset, size, inTrace, written, r1); }
      if line.Blank? {
        written, r1 := {}, {};
        continue;
      }
      if line.IsStart() {
        inTrace, written, r1 := true, {}, line.Refs(1, size);
        continue;
      }
      if line.IsFrom() {
        written, r1 := {}, line.Refs(1, size);
        continue;
      }
      if !inTrace {
        OutsideStep(log, n, wanted, offset, size, written, r1);
        continue;
      }
      ghost var before := r1;
      if line.Mentions(1) { r1 := line.Refs(1, size); }
      InsideStep(log, n, wanted, offset, size, written, before);
      if helper in line.calls {
        CallLine(log, n, helper, wanted, offset, size, sawHelper, written, before);
        sawHelper := true;
        if r1 == {} || written * r1 == {} { return false; }
      } else {
        OtherLine(log, n, helper, wanted, offset, size, sawHelper);
      }
      written := written + line.StoredRefs(wanted, offset, size);
    }
    JudgesAll(log, helper, wanted, offset, size, sawHelper);
    return sawHelper;
  }

  /** Some line of the trace stores the value to the record. */
  ghost predicate WrittenWith(log: seq<Line>, value: int, offset: int, size: int, ref: nat) {
    exists j :: InTrace(log, j) && ref in log[j].StoredRefs(Some({value}), offset, size)
  }

  /** Some call of the helper gets the record as its first argument. */
  ghost predicate PassedTo(log: seq<Line>, helper: string, size: int, ref: nat) {
    exists i :: HelperLine(log, i, helper) && RefAt(log, i, 1, size, ref)
  }

  method RingbufRefsWrittenWithU32Value(log: seq<Line>, expected: int, offset: int, size: int)
    returns (written: set<nat>)
    ensures forall ref :: ref in written <==> WrittenWith(log, expected, offset, size, ref)
  {
    var inTrace := false;
    written := {};
    for n := 0 to |log|
      invariant inTrace == Traced(log, n)
      invariant forall ref :: ref in written <==>
        exists j :: j < n && InTrace(log, j) && ref in log[j].StoredRefs(Some({expected}), offset, size)
    {
      TracedStep(log, n);
      if log[n].IsStart() {
        inTrace := true;
        continue;
      }
      if !inTrace || log[n].Blank? { continue; }
      written := written + log[n].StoredRefs(Some({expected}), offset, size);
    }
  }

  method SubmittedRingbufRefs(log: seq<Line>, helper: string, size: int) returns (submitted: set<nat>)
    ensures forall ref :: ref in submitted <==> PassedTo(log, helper, size, ref)
  {
    var inTrace := false;
    var r1: set<nat> := {};
    submitted := {};
    for n := 0 to |log|
      invariant inTrace == Traced(log, n)
      invariant inTrace ==> forall ref :: ref in r1 <==> RefAt(log, n - 1, 1, size, ref)
      invariant forall ref :: ref in submitted <==>
        exists i :: i < n && HelperLine(log, i, helper) && RefAt(log, i, 1, size, ref)
    {
      var line := log[n];
      TracedStep(log, n);
      forall ref
        ensures RefAt(log, n, 1, size, ref) <==>
          if Touches(line, 1) then ref in line.Refs(1, size) else RefAt(log, n - 1, 1, size, ref)
      {
        RefAtStep(log, n, 1, size, ref);
      }
      if line.Blank? {
        r1 := {};
        continue;
      }
      if line.IsStart() {
        inTrace, r1 := true, line.Refs(1, size);
        continue;
      }
      if line.IsFrom() {
        r1 := line.Refs(1, size);
        continue;
      }
      if !inTrace { continue; }
      if line.Mentions(1) { r1 := line.Refs(1, size); }
      if helper in line.calls { submitted := submitted + r1; }
    }
  }

  lemma StoredOneOf(line: Line, wanted: set<int>, offset: int, size: int, ref: nat)
    requires ref in line.StoredRefs(Some(wanted), offset, size)
    ensures exists v :: v in wanted && ref in line.StoredRefs(Some({v}), offset, size)
  {
    var values := line.Scalars(line.store.value.source);
    Inhabited(wanted * values);
    var v :| v in wanted && v in values;
    assert ref in line.StoredRefs(Some({v}), offset, size);
  }

  /** The path-sensitive scan implies the two weaker ones: if it accepts a set of values for a
      helper, some record was written with one of them and is passed to that helper. */
  lemma PathSensitiveImpliesIntersection(log: seq<Line>, helper: string, wanted: set<int>, offset: int, size: int)
    requires WrittenBeforeEveryCall(log, helper, Some(wanted), offset, size)
    ensures exists v, ref :: v in wanted && WrittenWith(log, v, offset, size, ref) && PassedTo(log, helper, size, ref)
  {
    var i :| HelperLine(log, i, helper);
    var ref :| RefAt(log, i, 1, size, ref) && WrittenBefore(log, i, Some(wanted), offset, size, ref);
    var j :| j < i && Writes(log, j, Some(wanted), offset, size, ref);
    StoredOneOf(log[j], wanted, offset, size, ref);
    var v :| v in wanted && ref in log[j].StoredRefs(Some({v}), offset, size);
    assert WrittenWith(log, v, offset, size, ref);
  }
}
