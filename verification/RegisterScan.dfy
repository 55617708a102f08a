/**
 The scanners that follow one register, or the pointer registers, through a verifier log, each
 proved equal to a specification over line numbers.
 */
module RegisterScan {
  import opened Wrappers
  import opened LogLines
  import opened RingbufScan

  // ----- scalar arguments of helper calls -----------------------------------------------

  /** At line `i` the strict scan takes the register to hold the value. */
  ghost predicate ValueAt(log: seq<Line>, i: int, register: nat, value: int) {
    exists j :: 0 <= j <= i < |log| && !log[j].IsFrom() && value in log[j].Scalars(register) &&
      forall k :: j < k <= i ==> !Touches(log[k], register)
  }

  lemma ValueAtStep(log: seq<Line>, i: nat, register: nat, value: int)
    requires i < |log|
    ensures ValueAt(log, i, register, value) <==>
      if Touches(log[i], register) then !log[i].IsFrom() && value in log[i].Scalars(register)
      else ValueAt(log, i - 1, register, value)
  {
    if ValueAt(log, i, register, value) {
      var j :| 0 <= j <= i && !log[j].IsFrom() && value in log[j].Scalars(register) &&
        forall k :: j < k <= i ==> !Touches(log[k], register);
      if j < i { assert ValueAt(log, i - 1, register, value); }
    }
    if !Touches(log[i], register) && ValueAt(log, i - 1, register, value) {
      var j :| 0 <= j <= i - 1 && !log[j].IsFrom() && value in log[j].Scalars(register) &&
        forall k :: j < k <= i - 1 ==> !Touches(log[k], register);
      assert forall k :: j < k <= i ==> !Touches(log[k], register);
    }
  }

  ghost predicate EveryCallUses(log: seq<Line>, helper: string, register: nat, value: int) {
    && (exists i :: HelperLine(log, i, helper))
    && forall i :: HelperLine(log, i, helper) ==> ValueAt(log, i, register, value)
  }

  method HelperCallsUseRegisterValue(log: seq<Line>, helper: string, register: nat, expected: int)
    returns (accepted: bool)
    ensures accepted <==> EveryCallUses(log, helper, register, expected)
  {
    var inTrace, sawHelper := false, false;
    var values: set<int> := {};
    for n := 0 to |log|
      invariant inTrace == Traced(log, n)
      invariant inTrace ==> (expected in values <==> ValueAt(log, n - 1, register, expected))
      invariant sawHelper <==> exists i :: i < n && HelperLine(log, i, helper)
      invariant forall i :: i < n && HelperLine(log, i, helper) ==> ValueAt(log, i, register, expected)
    {
      var line := log[n];
      TracedStep(log, n);
      ValueAtStep(log, n, register, expected);
      if line.Blank? || line.IsFrom() {
        values := {};
        continue;
      }
      if line.IsStart() {
        inTrace, values := true, line.Scalars(register);
        continue;
      }
      if !inTrace { continue; }
      if line.Mentions(register) { values := line.Scalars(register); }
      if helper in line.calls {
        assert HelperLine(log, n, helper);
        sawHelper := true;
        if expected !in values { return false; }
      }
    }
    return sawHelper;
  }

  /** The loose scan also starts a trace at a branch header, and forgets a value only at a blank
      line, at a header, or when another scalar is seen. */
  predicate Opens(line: Line) { line.IsStart() || line.IsFrom() }

  predicate Supersedes(line: Line, register: nat) {
    line.Resets() || line.Scalars(register) != {}
  }

  ghost predicate Opened(log: seq<Line>, i: int) {
    exists s :: 0 <= s < i && s < |log| && Opens(log[s])
  }

  ghost predicate LooseValueAt(log: seq<Line>, i: int, register: nat, value: int) {
    exists j :: 0 <= j <= i < |log| && value in log[j].Scalars(register) &&
      forall k :: j < k <= i ==> !Supersedes(log[k], register)
  }

  lemma LooseValueAtStep(log: seq<Line>, i: nat, register: nat, value: int)
    requires i < |log|
    ensures LooseValueAt(log, i, register, value) <==>
      if Supersedes(log[i], register) then value in log[i].Scalars(register)
      else LooseValueAt(log, i - 1, register, value)
  {
    if LooseValueAt(log, i, register, value) {
      var j :| 0 <= j <= i && value in log[j].Scalars(register) &&
        forall k :: j < k <= i ==> !Supersedes(log[k], register);
      if j < i { assert LooseValueAt(log, i - 1, register, value); }
    }
    if !Supersedes(log[i], register) && LooseValueAt(log, i - 1, register, value) {
      var j :| 0 <= j <= i - 1 && value in log[j].Scalars(register) &&
        forall k :: j < k <= i - 1 ==> !Supersedes(log[k], register);
      assert forall k :: j < k <= i ==> !Supersedes(log[k], register);
    }
  }

  ghost predicate LooseCall(log: seq<Line>, i: int, helper: string, register: nat, value: int) {
    && 0 <= i < |log| && log[i].Text? && log[i].kind.Plain? && Opened(log, i)
    && helper in log[i].calls && LooseValueAt(log, i, register, value)
  }

  lemma OpenedStep(log: seq<Line>, i: nat)
    requires i < |log|
    ensures Opened(log, i + 1) <==> Opened(log, i) || Opens(log[i])
  {
    if Opened(log, i) {
      var s :| 0 <= s < i && s < |log| && Opens(log[s]);
      assert s < i + 1;
    }
  }

  method HelperReachableWithRegisterValue(log: seq<Line>, helper: string, register: nat, expected: int)
    returns (reachable: bool)
    ensures reachable <==> exists i :: LooseCall(log, i, helper, register, expected)
  {
    var inTrace := false;
    var values: set<int> := {};
    for n := 0 to |log|
      invariant inTrace == Opened(log, n)
      invariant inTrace ==> (expected in values <==> LooseValueAt(log, n - 1, register, expected))
      invariant forall i :: i < n ==> !LooseCall(log, i, helper, register, expected)
    {
      var line := log[n];
      OpenedStep(log, n);
      LooseValueAtStep(log, n, register, expected);
      if line.Blank? {
        values := {};
        continue;
      }
      if line.IsStart() || line.IsFrom() {
        inTrace, values := true, line.Scalars(register);
        continue;
      }
      if !inTrace { continue; }
      if line.Scalars(register) != {} { values := line.Scalars(register); }
      if helper in line.calls && expected in values {
        assert LooseCall(log, n, helper, register, expected);
        return true;
      }
    }
    return false;
  }

  /** Although the two scans start, forget and update differently, every log the strict one
      accepts is one in which the loose one finds a call. */
  lemma StrictImpliesReachable(log: seq<Line>, helper: string, register: nat, value: int)
    requires EveryCallUses(log, helper, register, value)
    ensures exists i :: LooseCall(log, i, helper, register, value)
  {
    var i :| HelperLine(log, i, helper);
    var j :| 0 <= j <= i && value in log[j].Scalars(register) && forall k :: j < k <= i ==> !Touches(log[k], register);
    forall k | j < k <= i ensures !Supersedes(log[k], register) {
      assert !Touches(log[k], register);
    }
    var s :| 0 <= s < i && log[s].IsStart();
    assert Opens(log[s]);
    assert LooseCall(log, i, helper, register, value);
  }

  // ----- map value pointers -------------------------------------------------------------

  /** Lines at which the pointer scanners start over. */
  predicate Restarts(line: Line) { line.Blank? || line.IsStart() }

  /** The state that holds for the register before line `i`: what the latest line that mentions it
      says, with no restart in between. */
  ghost predicate StateBefore(log: seq<Line>, i: int, register: nat, value: Value) {
    exists j :: 0 <= j < i <= |log| && States(log[j], register, value) &&
      forall k :: j < k < i ==> !Replaces(log[k], register)
  }

  predicate States(line: Line, register: nat, value: Value) {
    line.Text? && LastValue(line.mentions, register) == Some(value)
  }

  predicate Replaces(line: Line, register: nat) {
    Restarts(line) || line.Mentions(register)
  }

  lemma StateBeforeStep(log: seq<Line>, i: nat, register: nat, value: Value)
    requires i < |log|
    ensures StateBefore(log, i + 1, register, value) <==>
      if Replaces(log[i], register) then States(log[i], register, value)
      else StateBefore(log, i, register, value)
  {
    if StateBefore(log, i + 1, register, value) {
      var j :| 0 <= j < i + 1 && States(log[j], register, value) &&
        forall k :: j < k < i + 1 ==> !Replaces(log[k], register);
      if j < i {
        assert StateBefore(log, i, register, value);
      } else if log[i].Text? {
        LastValueIffMentioned(log[i].mentions, register);
      }
    }
    if StateBefore(log, i, register, value) && !Replaces(log[i], register) {
      var j :| 0 <= j < i && States(log[j], register, value) && forall k :: j < k < i ==> !Replaces(log[k], register);
      assert forall k :: j < k < i + 1 ==> !Replaces(log[k], register);
    }
  }

  /** The effect of a line's mentions on the set of map value registers. */
  method UpdateMapValues(mentions: seq<Mention>, before: set<nat>) returns (registers: set<nat>)
    ensures forall r :: r in registers <==>
      if LastValue(mentions, r).Some? then LastValue(mentions, r).value.MapValue? else r in before
  {
    registers := before;
    for i := 0 to |mentions|
      invariant forall r :: r in registers <==>
        if LastValue(mentions[..i], r).Some? then LastValue(mentions[..i], r).value.MapValue? else r in before
    {
      assert mentions[..i + 1][..i] == mentions[..i];
      registers := if mentions[i].value.MapValue? then registers + {mentions[i].register}
                   else registers - {mentions[i].register};
    }
    assert mentions[..|mentions|] == mentions;
  }

  /** A load at the offset whose base register pointed to a map value before the line. */
  ghost predicate MapValueLoad(log: seq<Line>, i: int, offset: nat) {
    && InTrace(log, i) && log[i].load.Some? && log[i].load.value.offset == offset
    && StateBefore(log, i, log[i].load.value.base, MapValue)
  }

  method LoadedMapValueU32Offset(log: seq<Line>, offset: nat) returns (found: bool)
    ensures found <==> exists i :: MapValueLoad(log, i, offset)
  {
    var inTrace := false;
    var registers: set<nat> := {};
    for n := 0 to |log|
      invariant inTrace == Traced(log, n)
      invariant inTrace ==> forall r :: r in registers <==> StateBefore(log, n, r, MapValue)
      invariant forall i :: i < n ==> !MapValueLoad(log, i, offset)
    {
      var line := log[n];
      TracedStep(log, n);
      forall r
        ensures StateBefore(log, n + 1, r, MapValue) <==>
          if Replaces(line, r) then States(line, r, MapValue) else StateBefore(log, n, r, MapValue)
        ensures line.Text? ==> (LastValue(line.mentions, r).Some? <==> line.Mentions(r))
      {
        StateBeforeStep(log, n, r, MapValue);
        if line.Text? { LastValueIffMentioned(line.mentions, r); }
      }
      if line.Blank? {
        registers := {};
        continue;
      }
      if line.IsStart() {
        inTrace := true;
        registers := UpdateMapValues(line.mentions, {});
        continue;
      }
      if !inTrace { continue; }
      if line.load.Some? && line.load.value.offset == offset && line.load.value.base in registers {
        assert MapValueLoad(log, n, offset);
        return true;
      }
      registers := UpdateMapValues(line.mentions, registers);
    }
    return false;
  }
}
