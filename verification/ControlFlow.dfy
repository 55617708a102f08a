/**
 Control-flow search over the instructions of a verifier log.  Two oracles build a graph
 from "pc -> instruction" and search it with a worklist: one looks for a target that is
 reached before any forbidden instruction, the other searches the product of the graph
 with the bit "a discard call has been passed".  Each search is proved to answer exactly
 whether a path of the required shape exists, for every instruction map, including cyclic
 ones and ones whose jumps leave the map.
 */
module ControlFlow {
  import opened Wrappers
  import opened FiniteSets

  /** An instruction as far as its text decides the successors.  A jump text whose
      "goto pc" is not followed by a signed number has no offset. */
  datatype Op =
    | Exit
    | Branch(offset: Option<int>)
    | Goto(offset: Option<int>)
    | Straight

  type Insns = map<int, Op>

  /** The instruction printed after `pc`: the least key above it. */
  function NextPc(insns: Insns, pc: int): (r: Option<int>)
    ensures r.None? <==> forall k :: k in insns ==> k <= pc
    ensures r.Some? ==>
      r.value in insns && pc < r.value && forall k :: k in insns && pc < k ==> r.value <= k
  {
    var later := set k | k in insns && pc < k;
    if later == {} then
      assert forall k :: k in insns && pc < k ==> k in later;
      None
    else
      assert forall k :: k in insns && pc < k ==> k in later;
      Some(Minimum(later))
  }

  function Listed(o: Option<int>): seq<int> {
    if o.Some? then [o.value] else []
  }

  function BranchTarget(pc: int, offset: Option<int>): Option<int> {
    if offset.Some? then Some(pc + 1 + offset.value) else None
  }

  function Successors(insns: Insns, pc: int): seq<int> {
    if pc !in insns then []
    else
      match insns[pc]
      case Exit => []
      case Branch(offset) => Listed(NextPc(insns, pc)) + Listed(BranchTarget(pc, offset))
      case Goto(offset) => Listed(BranchTarget(pc, offset))
      case Straight => Listed(NextPc(insns, pc))
  }

  ghost predicate Edge(insns: Insns, p: seq<int>, i: int)
    requires 0 <= i < |p| - 1
  {
    p[i + 1] in Successors(insns, p[i])
  }

  /** A nonempty walk along control-flow edges. */
  ghost predicate IsPath(insns: Insns, p: seq<int>) {
    |p| > 0 && forall i {:trigger Edge(insns, p, i)} :: 0 <= i < |p| - 1 ==> Edge(insns, p, i)
  }

  lemma PathExtends(insns: Insns, p: seq<int>, next: int)
    requires IsPath(insns, p) && next in Successors(insns, p[|p| - 1])
    ensures IsPath(insns, p + [next])
  {
    var q := p + [next];
    forall i | 0 <= i < |q| - 1 ensures Edge(insns, q, i) {
      if i < |p| - 1 { assert Edge(insns, p, i); }
    }
  }

  /** Finitely many pcs can be met from `start`: this is what makes the searches terminate. */
  lemma FiniteReach(insns: Insns, start: int) returns (pcs: set<int>)
    ensures start in pcs && forall pc, next :: next in Successors(insns, pc) ==> next in pcs
  {
    pcs := {start} + set pc, next | pc in insns && next in Successors(insns, pc) :: next;
  }

  /** A walk from `start` that meets nothing in `avoid` before its last instruction.  Every
      instruction before the last is present in the map, since it has a successor. */
  ghost predicate Walk(insns: Insns, start: int, avoid: set<int>, p: seq<int>) {
    IsPath(insns, p) && p[0] == start && forall i :: 0 <= i < |p| - 1 ==> p[i] !in avoid
  }

  lemma WalkExtends(insns: Insns, start: int, avoid: set<int>, p: seq<int>, next: int)
    requires Walk(insns, start, avoid, p) && p[|p| - 1] !in avoid && next in Successors(insns, p[|p| - 1])
    ensures Walk(insns, start, avoid, p + [next])
  {
    PathExtends(insns, p, next);
  }

  // ----- plain search -------------------------------------------------------------------

  /** Some walk from `start` ends in a target. */
  ghost predicate Reaches(insns: Insns, start: int, targets: set<int>, forbidden: set<int>) {
    exists p :: Walk(insns, start, forbidden, p) && p[|p| - 1] in targets
  }

  /** The question put to the plain search. */
  datatype Search = Search(insns: Insns, start: int, targets: set<int>, forbidden: set<int>)
  {
    ghost predicate Possible() {
      Reaches(insns, start, targets, forbidden)
    }

    ghost predicate Visits(pc: int) {
      exists p :: Walk(insns, start, forbidden, p) && p[|p| - 1] == pc
    }

    /** Closed under the search's steps, up to the nodes still waiting in `rest`. */
    ghost predicate Closed(seen: set<int>, rest: seq<int>) {
      forall pc, next :: pc in seen && pc !in forbidden && next in Successors(insns, pc)
        ==> next in seen || next in rest
    }

    /** What the stack and the seen set satisfy at the head of the loop. */
    ghost predicate Invariant(seen: set<int>, rest: seq<int>) {
      && (forall pc :: pc in rest ==> Visits(pc))
      && (start in seen || start in rest)
      && (forall pc :: pc in seen ==> pc !in targets)
      && Closed(seen, rest)
    }

    lemma VisitsStart()
      ensures Visits(start)
    {
      assert Walk(insns, start, forbidden, [start]);
    }

    /** Expanding an allowed node keeps the invariant; so does dropping a node without steps. */
    lemma SearchStep(seen: set<int>, rest: seq<int>, pc: int)
      requires Invariant(seen, rest + [pc]) && pc !in seen && pc !in targets
      ensures pc !in forbidden ==> Invariant(seen + {pc}, rest + Successors(insns, pc))
      ensures pc in forbidden || pc !in insns ==> Invariant(seen + {pc}, rest)
    {
      assert pc in rest + [pc];
      var p :| Walk(insns, start, forbidden, p) && p[|p| - 1] == pc;
      if pc !in forbidden {
        forall next | next in Successors(insns, pc) ensures Visits(next) {
          WalkExtends(insns, start, forbidden, p, next);
          assert (p + [next])[|p + [next]| - 1] == next;
        }
      }
    }

    lemma Hit(seen: set<int>, rest: seq<int>, pc: int)
      requires Invariant(seen, rest + [pc]) && pc in targets
      ensures Possible()
    {
      assert pc in rest + [pc];
    }

    /** A closed set that holds the start holds every node of a walk. */
    lemma {:induction false} ClosedHoldsWalk(seen: set<int>, p: seq<int>, n: nat)
      requires Walk(insns, start, forbidden, p) && n < |p|
      requires start in seen && Closed(seen, [])
      ensures p[n] in seen
    {
      if n > 0 {
        ClosedHoldsWalk(seen, p, n - 1);
        assert Edge(insns, p, n - 1);
      }
    }

    lemma Exhausted(seen: set<int>)
      requires Invariant(seen, [])
      ensures !Possible()
    {
      forall p | Walk(insns, start, forbidden, p) ensures p[|p| - 1] !in targets {
        ClosedHoldsWalk(seen, p, |p| - 1);
        var last: int := p[|p| - 1];
        assert last in seen;
      }
    }
  }

  method ReachesTargetBeforeForbidden(q: Search) returns (found: bool)
    ensures found <==> q.Possible()
  {
    var stack := [q.start];
    var seen: set<int> := {};
    q.VisitsStart();
    ghost var pcs := FiniteReach(q.insns, q.start);
    while stack != []
      invariant seen <= pcs && forall pc :: pc in stack ==> pc in pcs
      invariant q.Invariant(seen, stack)
      decreases |pcs - seen|, |stack|
    {
      var pc := stack[|stack| - 1];
      ghost var before := stack;
      stack := stack[..|stack| - 1];
      assert before == stack + [pc];
      if pc in seen { continue; }
      if pc in q.targets {
        q.Hit(seen, stack, pc);
        return true;
      }
      q.SearchStep(seen, stack, pc);
      SmallerSet(pcs - (seen + {pc}), pcs - seen);
      seen := seen + {pc};
      if pc in q.forbidden || pc !in q.insns { continue; }
      stack := stack + Successors(q.insns, pc);
    }
    q.Exhausted(seen);
    return false;
  }

  // ----- product search -----------------------------------------------------------------

  /** The product states pushed for a list of successors. */
  function Paired(pcs: seq<int>, sawDiscard: bool): (r: seq<(int, bool)>)
    ensures forall s :: s in r <==> s.1 == sawDiscard && s.0 in pcs
  {
    if pcs == [] then [] else [(pcs[0], sawDiscard)] + Paired(pcs[1..], sawDiscard)
  }

  /** The question put to the product search. */
  datatype Cleanup = Cleanup(
    insns: Insns, start: int, deletes: set<int>, submits: set<int>, discards: set<int>, requireDiscard: bool)
  {
    /** A discard call is passed before position `n` of the path. */
    ghost predicate Passed(p: seq<int>, n: int) {
      exists i :: 0 <= i < n && i < |p| && p[i] in discards
    }

    /** A path from the start to a delete call that meets no submit call, its end included,
        and that has met a discard call by its end when one is required. */
    ghost predicate CleanupPath(p: seq<int>) {
      && Walk(insns, start, submits, p)
      && p[|p| - 1] in deletes - submits
      && (requireDiscard ==> Passed(p, |p|))
    }

    ghost predicate Possible() {
      exists p :: CleanupPath(p)
    }

    /** The product state (pc, sawDiscard) ends a clean walk that passed a discard before it, or not. */
    ghost predicate Visits(s: (int, bool)) {
      exists p :: Walk(insns, start, submits, p) && p[|p| - 1] == s.0 && s.1 == Passed(p, |p| - 1)
    }

    ghost predicate Accepts(s: (int, bool)) {
      s.0 !in submits && s.0 in deletes && (s.1 || s.0 in discards || !requireDiscard)
    }

    /** Closed under product steps, up to the states still waiting in `rest`. */
    ghost predicate Closed(seen: set<(int, bool)>, rest: seq<(int, bool)>) {
      forall s, next :: s in seen && s.0 !in submits && next in Successors(insns, s.0)
        ==> (next, s.1 || s.0 in discards) in seen || (next, s.1 || s.0 in discards) in rest
    }

    /** What the worklist and the visited set satisfy at the head of the loop. */
    ghost predicate Invariant(seen: set<(int, bool)>, rest: seq<(int, bool)>) {
      && (forall s :: s in rest ==> Visits(s))
      && ((start, false) in seen || (start, false) in rest)
      && (forall s :: s in seen ==> !Accepts(s))
      && Closed(seen, rest)
    }

    lemma SearchStep(seen: set<(int, bool)>, rest: seq<(int, bool)>, s: (int, bool))
      requires Invariant(seen, rest + [s]) && s !in seen && !Accepts(s)
      ensures s.0 in submits ==> Invariant(seen + {s}, rest)
      ensures s.0 !in submits ==>
        Invariant(seen + {s}, rest + Paired(Successors(insns, s.0), s.1 || s.0 in discards))
    {
      assert s in rest + [s];
      forall next | next in Successors(insns, s.0) && s.0 !in submits
        ensures Visits((next, s.1 || s.0 in discards))
      {
        VisitsStep(s, next);
      }
    }

    lemma VisitsStart()
      ensures Visits((start, false))
    {
      assert Walk(insns, start, submits, [start]) && !Passed([start], 0);
    }

    lemma VisitsStep(s: (int, bool), next: int)
      requires Visits(s) && s.0 !in submits && next in Successors(insns, s.0)
      ensures Visits((next, s.1 || s.0 in discards))
    {
      var p :| Walk(insns, start, submits, p) && p[|p| - 1] == s.0 && s.1 == Passed(p, |p| - 1);
      var q := p + [next];
      WalkExtends(insns, start, submits, p, next);
      PassedAppend(p, next);
      assert Passed(q, |q| - 1) == (s.1 || s.0 in discards);
    }

    lemma PassedAppend(p: seq<int>, next: int)
      requires |p| > 0
      ensures Passed(p + [next], |p|) <==> Passed(p, |p| - 1) || p[|p| - 1] in discards
    {
      var q := p + [next];
      if Passed(q, |p|) {
        var i :| 0 <= i < |p| && q[i] in discards;
        assert p[i] in discards;
      }
      if Passed(p, |p| - 1) {
        var i :| 0 <= i < |p| - 1 && p[i] in discards;
        assert q[i] in discards;
      }
      if p[|p| - 1] in discards { assert q[|p| - 1] in discards; }
    }

    lemma PathAccepted(p: seq<int>)
      requires CleanupPath(p)
      ensures Accepts((p[|p| - 1], Passed(p, |p| - 1)))
    {
      assert Passed(p, |p|) ==> Passed(p, |p| - 1) || p[|p| - 1] in discards;
    }

    lemma {:induction false} ClosedHoldsStates(seen: set<(int, bool)>, p: seq<int>, n: nat)
      requires Walk(insns, start, submits, p) && n < |p|
      requires (start, false) in seen && Closed(seen, [])
      ensures (p[n], Passed(p, n)) in seen
    {
      if n == 0 {
        assert !Passed(p, 0);
      } else {
        ClosedHoldsStates(seen, p, n - 1);
        assert Edge(insns, p, n - 1);
        assert Passed(p, n) <==> Passed(p, n - 1) || p[n - 1] in discards;
      }
    }

    lemma Hit(seen: set<(int, bool)>, rest: seq<(int, bool)>, s: (int, bool))
      requires Invariant(seen, rest + [s]) && Accepts(s)
      ensures Possible()
    {
      assert s in rest + [s];
      var p :| Walk(insns, start, submits, p) && p[|p| - 1] == s.0 && s.1 == Passed(p, |p| - 1);
      if s.1 {
        var i :| 0 <= i < |p| - 1 && p[i] in discards;
        assert Passed(p, |p|);
      } else if s.0 in discards {
        assert p[|p| - 1] in discards;
      }
      assert CleanupPath(p);
    }

    lemma Exhausted(seen: set<(int, bool)>)
      requires Invariant(seen, [])
      ensures !Possible()
    {
      if Possible() {
        var p :| CleanupPath(p);
        PathAccepted(p);
        ClosedHoldsStates(seen, p, |p| - 1);
      }
    }
  }

  method FilteredSuccessorReachesCleanup(q: Cleanup) returns (found: bool)
    ensures found <==> q.Possible()
  {
    var worklist := [(q.start, false)];
    var visited: set<(int, bool)> := {};
    q.VisitsStart();
    ghost var pcs := FiniteReach(q.insns, q.start);
    ghost var states := set pc, b | pc in pcs && b in {false, true} :: (pc, b);
    while worklist != []
      invariant visited <= states && forall s :: s in worklist ==> s in states
      invariant q.Invariant(visited, worklist)
      decreases |states - visited|, |worklist|
    {
      var state := worklist[|worklist| - 1];
      ghost var before := worklist;
      worklist := worklist[..|worklist| - 1];
      assert before == worklist + [state];
      if state in visited { continue; }
      var pc := state.0;
      var sawDiscard := state.1 || pc in q.discards;
      if pc !in q.submits && pc in q.deletes && (sawDiscard || !q.requireDiscard) {
        q.Hit(visited, worklist, state);
        return true;
      }
      q.SearchStep(visited, worklist, state);
      SmallerSet(states - (visited + {state}), states - visited);
      visited := visited + {state};
      if pc in q.submits { continue; }
      worklist := worklist + Paired(Successors(q.insns, pc), sawDiscard);
    }
    q.Exhausted(visited);
    return false;
  }

  /** A successor of the ret filter from which a clean path leads to a delete call; a reserve
      call printed before the filter makes a discard call mandatory. */
  ghost predicate FilterCleanup(
    insns: Insns, reserves: set<int>, submits: set<int>, discards: set<int>, deletes: set<int>, branch: int, next: int)
  {
    && next in Successors(insns, branch)
    && Cleanup(insns, next, deletes, submits, discards, exists r :: r in reserves && r < branch).Possible()
  }

  method FilteredRetPathReachesCleanup(
    insns: Insns, branches: seq<int>, reserves: set<int>, submits: set<int>, discards: set<int>, deletes: set<int>)
    returns (found: bool)
    ensures found <==>
      && insns != map[] && reserves != {} && submits != {} && deletes != {}
      && exists b, next :: b in branches && FilterCleanup(insns, reserves, submits, discards, deletes, b, next)
  {
    if insns == map[] || reserves == {} || submits == {} || deletes == {} { return false; }
    for i := 0 to |branches|
      invariant forall b, next :: b in branches[..i] ==>
                  !FilterCleanup(insns, reserves, submits, discards, deletes, b, next)
    {
      var reserveBefore := exists r :: r in reserves && r < branches[i];
      var succs := Successors(insns, branches[i]);
      for j := 0 to |succs|
        invariant forall next :: next in succs[..j] ==>
                    !FilterCleanup(insns, reserves, submits, discards, deletes, branches[i], next)
      {
        var hit := FilteredSuccessorReachesCleanup(Cleanup(insns, succs[j], deletes, submits, discards, reserveBefore));
        if hit {
          assert FilterCleanup(insns, reserves, submits, discards, deletes, branches[i], succs[j]);
          return true;
        }
      }
      assert succs[..|succs|] == succs;
    }
    assert branches[..|branches|] == branches;
    return false;
  }

  // ----- how the two searches relate ----------------------------------------------------

  /** Without a required discard the product search answers a plain search. */
  lemma UnrequiredCleanupIsPlainSearch(q: Cleanup)
    requires !q.requireDiscard
    ensures q.Possible() <==> Search(q.insns, q.start, q.deletes - q.submits, q.submits).Possible()
  {
    if q.Possible() {
      var p :| q.CleanupPath(p);
      assert Walk(q.insns, q.start, q.submits, p) && p[|p| - 1] in q.deletes - q.submits;
    }
    if Reaches(q.insns, q.start, q.deletes - q.submits, q.submits) {
      var p :| Walk(q.insns, q.start, q.submits, p) && p[|p| - 1] in q.deletes - q.submits;
      assert q.CleanupPath(p);
    }
  }

  lemma WalksJoin(insns: Insns, start: int, avoid: set<int>, a: seq<int>, b: seq<int>)
    requires Walk(insns, start, avoid, a) && a[|a| - 1] !in avoid && Walk(insns, a[|a| - 1], avoid, b)
    ensures Walk(insns, start, avoid, a + b[1..])
    ensures (a + b[1..])[|a + b[1..]| - 1] == b[|b| - 1]
  {
    var c := a + b[1..];
    forall i | 0 <= i < |c| - 1 ensures Edge(insns, c, i) && c[i] !in avoid {
      if i < |a| - 1 {
        assert Edge(insns, a, i);
      } else {
        assert Edge(insns, b, i - (|a| - 1)) && c[i] == b[i - (|a| - 1)];
      }
    }
  }

  lemma WalkSplits(insns: Insns, start: int, avoid: set<int>, p: seq<int>, k: nat)
    requires Walk(insns, start, avoid, p) && k < |p|
    ensures Walk(insns, start, avoid, p[..k + 1]) && Walk(insns, p[k], avoid, p[k..])
  {
    var a, b := p[..k + 1], p[k..];
    forall i | 0 <= i < |a| - 1 ensures Edge(insns, a, i) { assert Edge(insns, p, i); }
    forall i | 0 <= i < |b| - 1 ensures Edge(insns, b, i) { assert Edge(insns, p, k + i); }
  }

  /** `d` is a discard call on the way: a plain search finds it, and a delete call from it. */
  ghost predicate ReachesThrough(q: Cleanup, d: int) {
    && d in q.discards - q.submits
    && Search(q.insns, q.start, {d}, q.submits).Possible()
    && Search(q.insns, d, q.deletes - q.submits, q.submits).Possible()
  }

  /** With a required discard it answers two plain searches in sequence: to some discard call,
      and from there to a delete call, both without a submit call. */
  lemma RequiredCleanupIsTwoSearches(q: Cleanup)
    requires q.requireDiscard
    ensures q.Possible() <==> (exists d :: ReachesThrough(q, d))
  {
    if q.Possible() {
      var p :| q.CleanupPath(p);
      var k :| 0 <= k < |p| && p[k] in q.discards;
      WalkSplits(q.insns, q.start, q.submits, p, k);
      assert p[..k + 1][|p[..k + 1]| - 1] == p[k] && p[k..][|p[k..]| - 1] == p[|p| - 1];
      assert ReachesThrough(q, p[k]);
    }
    if d: int :| ReachesThrough(q, d) {
      var a :| Walk(q.insns, q.start, q.submits, a) && a[|a| - 1] in {d};
      var b :| Walk(q.insns, d, q.submits, b) && b[|b| - 1] in q.deletes - q.submits;
      WalksJoin(q.insns, q.start, q.submits, a, b);
      var c := a + b[1..];
      assert c[|a| - 1] == d;
      assert q.Passed(c, |c|);
      assert q.CleanupPath(c);
    }
  }
}
