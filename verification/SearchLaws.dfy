/**
 What the two searches answer, one instruction at a time, from its raw operand: a jump leads to the
 instruction its offset counts from the one after it, a fall through to the least pc above.
 */
module SearchLaws {
  import opened Wrappers
  import opened ControlFlow

  /** `next` is the instruction printed after `pc`. */
  ghost predicate Follows(insns: Insns, pc: int, next: int) {
    next in insns && pc < next && forall k :: k in insns && pc < k ==> next <= k
  }

  lemma NextIffFollows(insns: Insns, pc: int, next: int)
    ensures NextPc(insns, pc) == Some(next) <==> Follows(insns, pc, next)
  {
  }

  lemma TailPath(insns: Insns, p: seq<int>)
    requires IsPath(insns, p) && |p| > 1
    ensures IsPath(insns, p[1..]) && p[1] in Successors(insns, p[0])
  {
    assert Edge(insns, p, 0);
    forall i | 0 <= i < |p[1..]| - 1 ensures Edge(insns, p[1..], i) { assert Edge(insns, p, i + 1); }
  }

  lemma PathFrom(insns: Insns, pc: int, p: seq<int>)
    requires IsPath(insns, p) && p[0] in Successors(insns, pc)
    ensures IsPath(insns, [pc] + p)
  {
    var q := [pc] + p;
    forall i | 0 <= i < |q| - 1 ensures Edge(insns, q, i) {
      if i > 0 { assert Edge(insns, p, i - 1); }
    }
  }

  // ----- plain search -------------------------------------------------------------------

  /** The search finds a target from there. */
  ghost predicate Finds(q: Search, pc: int) { q.(start := pc).Possible() }

  lemma FindsTarget(q: Search, pc: int)
    requires pc in q.targets
    ensures Finds(q, pc)
  {
    assert Walk(q.insns, pc, q.forbidden, [pc]);
  }

  lemma FindsOn(q: Search, pc: int, next: int)
    requires pc !in q.forbidden && next in Successors(q.insns, pc) && Finds(q, next)
    ensures Finds(q, pc)
  {
    var p :| Walk(q.insns, next, q.forbidden, p) && p[|p| - 1] in q.targets;
    PathFrom(q.insns, pc, p);
    assert Walk(q.insns, pc, q.forbidden, [pc] + p);
  }

  lemma FindsBy(q: Search, pc: int) returns (next: int)
    requires pc !in q.targets && Finds(q, pc)
    ensures pc !in q.forbidden && next in Successors(q.insns, pc) && Finds(q, next)
  {
    var p :| Walk(q.insns, pc, q.forbidden, p) && p[|p| - 1] in q.targets;
    assert |p| > 1;
    next := p[1];
    TailPath(q.insns, p);
    assert Walk(q.insns, next, q.forbidden, p[1..]);
  }

  /** A target is found at once; nothing is found past a forbidden, a missing or an exit instruction. */
  lemma SearchEnds(q: Search, pc: int)
    ensures pc in q.targets ==> Finds(q, pc)
    ensures pc !in q.targets && (pc in q.forbidden || pc !in q.insns || q.insns[pc] == Exit) ==> !Finds(q, pc)
  {
    if pc in q.targets {
      FindsTarget(q, pc);
    } else if Finds(q, pc) {
      var next := FindsBy(q, pc);
    }
  }

  /** An unconditional jump is followed to where its offset points, and nowhere without one. */
  lemma SearchAtGoto(q: Search, pc: int, offset: Option<int>)
    requires pc !in q.targets && pc !in q.forbidden && pc in q.insns && q.insns[pc] == Goto(offset)
    ensures Finds(q, pc) <==> offset.Some? && Finds(q, pc + offset.value + 1)
  {
    if Finds(q, pc) { var next := FindsBy(q, pc); }
    if offset.Some? && Finds(q, pc + offset.value + 1) { FindsOn(q, pc, pc + offset.value + 1); }
  }

  /** Any other instruction leads to the one printed after it. */
  lemma SearchAtStraight(q: Search, pc: int)
    requires pc !in q.targets && pc !in q.forbidden && pc in q.insns && q.insns[pc] == Straight
    ensures Finds(q, pc) <==> exists next :: Follows(q.insns, pc, next) && Finds(q, next)
  {
    if Finds(q, pc) {
      var next := FindsBy(q, pc);
      NextIffFollows(q.insns, pc, next);
    }
    if next :| Follows(q.insns, pc, next) && Finds(q, next) {
      NextIffFollows(q.insns, pc, next);
      FindsOn(q, pc, next);
    }
  }

  /** A conditional jump leads both ways. */
  lemma SearchAtBranch(q: Search, pc: int, offset: Option<int>)
    requires pc !in q.targets && pc !in q.forbidden && pc in q.insns && q.insns[pc] == Branch(offset)
    ensures Finds(q, pc) <==>
      || (exists next :: Follows(q.insns, pc, next) && Finds(q, next))
      || (offset.Some? && Finds(q, pc + offset.value + 1))
  {
    if Finds(q, pc) {
      var next := FindsBy(q, pc);
      NextIffFollows(q.insns, pc, next);
    }
    if next :| Follows(q.insns, pc, next) && Finds(q, next) {
      NextIffFollows(q.insns, pc, next);
      FindsOn(q, pc, next);
    }
    if offset.Some? && Finds(q, pc + offset.value + 1) { FindsOn(q, pc, pc + offset.value + 1); }
  }

  // ----- product search -----------------------------------------------------------------

  /** The search finds a cleanup from there, with or without a discard call still to be met. */
  ghost predicate Cleans(q: Cleanup, pc: int, discardDue: bool) {
    q.(start := pc, requireDiscard := discardDue).Possible()
  }

  /** Whether a discard call is still due after the instruction. */
  ghost predicate StillDue(q: Cleanup, pc: int, discardDue: bool) { discardDue && pc !in q.discards }

  /** The instruction is a cleanup that may end the path. */
  ghost predicate EndsAt(q: Cleanup, pc: int, discardDue: bool) {
    pc !in q.submits && pc in q.deletes && !StillDue(q, pc, discardDue)
  }

  lemma PassedTail(q: Cleanup, p: seq<int>)
    requires |p| > 0
    ensures q.Passed(p, |p|) <==> p[0] in q.discards || q.Passed(p[1..], |p| - 1)
  {
    var t := p[1..];
    if q.Passed(p, |p|) {
      var i :| 0 <= i < |p| && p[i] in q.discards;
      if i > 0 { assert t[i - 1] in q.discards; }
    }
    if p[0] in q.discards { assert q.Passed(p, |p|); }
    if q.Passed(t, |p| - 1) {
      var i :| 0 <= i < |t| && t[i] in q.discards;
      assert p[i + 1] in q.discards;
    }
  }

  lemma CleansHere(q: Cleanup, pc: int, due: bool)
    requires EndsAt(q, pc, due)
    ensures Cleans(q, pc, due)
  {
    var s := q.(start := pc, requireDiscard := due);
    PassedTail(s, [pc]);
    assert s.CleanupPath([pc]);
  }

  lemma CleansOn(q: Cleanup, pc: int, due: bool, next: int)
    requires pc !in q.submits && next in Successors(q.insns, pc) && Cleans(q, next, StillDue(q, pc, due))
    ensures Cleans(q, pc, due)
  {
    var s, r := q.(start := pc, requireDiscard := due), q.(start := next, requireDiscard := StillDue(q, pc, due));
    var p :| r.CleanupPath(p);
    var b := [pc] + p;
    PathFrom(q.insns, pc, p);
    PassedTail(s, b);
    assert b[1..] == p && s.Passed(p, |p|) == r.Passed(p, |p|);
    assert s.CleanupPath(b);
  }

  lemma CleansBy(q: Cleanup, pc: int, due: bool) returns (next: int)
    requires !EndsAt(q, pc, due) && Cleans(q, pc, due)
    ensures pc !in q.submits && next in Successors(q.insns, pc) && Cleans(q, next, StillDue(q, pc, due))
  {
    var s := q.(start := pc, requireDiscard := due);
    var p :| s.CleanupPath(p);
    PassedTail(s, p);
    assert |p| > 1;
    next := p[1];
    TailPath(q.insns, p);
    var r := q.(start := next, requireDiscard := StillDue(q, pc, due));
    assert s.Passed(p[1..], |p| - 1) == r.Passed(p[1..], |p| - 1);
    assert r.CleanupPath(p[1..]);
  }

  /** A cleanup call ends the search if no discard call is due, itself counted; nothing is found past
      a submit call, a missing or an exit instruction. */
  lemma CleanupEnds(q: Cleanup, pc: int, due: bool)
    ensures pc !in q.submits && pc in q.deletes && (!due || pc in q.discards) ==> Cleans(q, pc, due)
    ensures pc in q.submits ==> !Cleans(q, pc, due)
    ensures !EndsAt(q, pc, due) && (pc !in q.insns || q.insns[pc] == Exit) ==> !Cleans(q, pc, due)
  {
    if EndsAt(q, pc, due) {
      CleansHere(q, pc, due);
    } else if Cleans(q, pc, due) {
      var next := CleansBy(q, pc, due);
    }
  }

  lemma CleanupAtGoto(q: Cleanup, pc: int, due: bool, offset: Option<int>)
    requires !EndsAt(q, pc, due) && pc !in q.submits && pc in q.insns && q.insns[pc] == Goto(offset)
    ensures Cleans(q, pc, due) <==> offset.Some? && Cleans(q, pc + offset.value + 1, due && pc !in q.discards)
  {
    if Cleans(q, pc, due) { var next := CleansBy(q, pc, due); }
    if offset.Some? && Cleans(q, pc + offset.value + 1, due && pc !in q.discards) {
      CleansOn(q, pc, due, pc + offset.value + 1);
    }
  }

  lemma CleanupAtStraight(q: Cleanup, pc: int, due: bool)
    requires !EndsAt(q, pc, due) && pc !in q.submits && pc in q.insns && q.insns[pc] == Straight
    ensures Cleans(q, pc, due) <==>
      exists next :: Follows(q.insns, pc, next) && Cleans(q, next, due && pc !in q.discards)
  {
    if Cleans(q, pc, due) {
      var next := CleansBy(q, pc, due);
      NextIffFollows(q.insns, pc, next);
    }
    if next :| Follows(q.insns, pc, next) && Cleans(q, next, due && pc !in q.discards) {
      NextIffFollows(q.insns, pc, next);
      CleansOn(q, pc, due, next);
    }
  }

  lemma CleanupAtBranch(q: Cleanup, pc: int, due: bool, offset: Option<int>)
    requires !EndsAt(q, pc, due) && pc !in q.submits && pc in q.insns && q.insns[pc] == Branch(offset)
    ensures Cleans(q, pc, due) <==>
      || (exists next :: Follows(q.insns, pc, next) && Cleans(q, next, due && pc !in q.discards))
      || (offset.Some? && Cleans(q, pc + offset.value + 1, due && pc !in q.discards))
  {
    if Cleans(q, pc, due) {
      var next := CleansBy(q, pc, due);
      NextIffFollows(q.insns, pc, next);
    }
    if next :| Follows(q.insns, pc, next) && Cleans(q, next, due && pc !in q.discards) {
      NextIffFollows(q.insns, pc, next);
      CleansOn(q, pc, due, next);
    }
    if offset.Some? && Cleans(q, pc + offset.value + 1, due && pc !in q.discards) {
      CleansOn(q, pc, due, pc + offset.value + 1);
    }
  }

  /** What the oracle asks at a ret filter: both ways from it, with a discard call due iff a reserve
      call is printed before it. */
  lemma FilterAtBranch(
    insns: Insns, reserves: set<int>, submits: set<int>, discards: set<int>, deletes: set<int>,
    branch: int, offset: Option<int>)
    requires branch in insns && insns[branch] == Branch(offset)
    ensures var q := Cleanup(insns, branch, deletes, submits, discards, false);
      var due := exists r :: r in reserves && r < branch;
      (exists next :: FilterCleanup(insns, reserves, submits, discards, deletes, branch, next)) <==>
        || (exists next :: Follows(insns, branch, next) && Cleans(q, next, due))
        || (offset.Some? && Cleans(q, branch + offset.value + 1, due))
  {
    var q := Cleanup(insns, branch, deletes, submits, discards, false);
    var due := exists r :: r in reserves && r < branch;
    forall next
      ensures FilterCleanup(insns, reserves, submits, discards, deletes, branch, next) <==>
        (Follows(insns, branch, next) || offset == Some(next - branch - 1)) && Cleans(q, next, due)
    {
      NextIffFollows(insns, branch, next);
      assert q.(start := next, requireDiscard := due) == Cleanup(insns, next, deletes, submits, discards, due);
    }
    if offset.Some? && Cleans(q, branch + offset.value + 1, due) {
      assert FilterCleanup(insns, reserves, submits, discards, deletes, branch, branch + offset.value + 1);
    }
  }
}
