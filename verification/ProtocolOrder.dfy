/** Strong consistency: in every state of every run there is one order of the requests that have taken
    effect, in keeping with real time, in which each finds what the writes before it have left. */
module ProtocolOrder {
  import opened Options
  import opened Protocol
  import opened ProtocolInvariant
  import opened ProtocolTheorems

  /** The requests that have taken effect: the writes with a key that are in the log, answered or not
      yet, and the answered reads. */
  ghost predicate Effective(s: State, r: nat) {
    && r in s.reqs
    && var q := s.reqs[r];
       if q.cmd.write then q.cmd.keys != {} && q.streamed && q.Executed() && q.position <= |s.log| else q.phase.Answered?
  }

  /** A read comes after the write whose entry ends the log prefix that it returned. */
  function Rank(q: Request): nat {
    if q.cmd.write then 2 * Point(q) else 2 * Point(q) + 1
  }

  /** By rank; reads of one rank by what had been answered when they were submitted, then by name. */
  ghost predicate Before(s: State, a: nat, b: nat)
    requires a in s.reqs && b in s.reqs
  {
    var p, q := s.reqs[a], s.reqs[b];
    || Rank(p) < Rank(q)
    || (Rank(p) == Rank(q) && (|p.earlier| < |q.earlier| || (|p.earlier| == |q.earlier| && a < b)))
  }

  /** It is a strict total order. */
  lemma BeforeIsOrder(s: State, a: nat, b: nat, c: nat)
    requires a in s.reqs && b in s.reqs && c in s.reqs
    ensures !Before(s, a, a)
    ensures a != b ==> Before(s, a, b) || Before(s, b, a)
    ensures Before(s, a, b) && Before(s, b, c) ==> Before(s, a, c)
  {}

  /** Every answered request, but a write without a key, has taken effect. */
  lemma AnsweredIsEffective(s: State, r: nat)
    requires Reachable(LockFirst, s) && In(s, r, Answered) && (s.reqs[r].cmd.write ==> s.reqs[r].cmd.keys != {})
    ensures Effective(s, r)
  {
    ReachableInv(s);
    if s.reqs[r].cmd.write { AnsweredIsLogged(s, r); }
  }

  lemma Fewer(a: set<nat>, b: set<nat>, x: nat)
    requires a <= b && x in b && x !in a
    ensures |a| < |b|
  {
    assert b == a + (b - a);
  }

  /** A request takes effect after everything that had been logged when it was submitted. */
  lemma PointAfterSeen(s: State, r: nat)
    requires Inv(s) && Effective(s, r)
    ensures s.reqs[r].seen <= Point(s.reqs[r]) && (s.reqs[r].cmd.write ==> s.reqs[r].seen < Point(s.reqs[r]))
  {
    assert Recorded(s, r) && Placed(s, r);
  }

  /** The order keeps to real time: what had been answered when a request was submitted is before it. */
  lemma KeepsRealTime(s: State, a: nat, b: nat)
    requires Inv(s) && Effective(s, a) && Effective(s, b) && a in s.reqs[b].earlier
    ensures Before(s, a, b)
  {
    assert Earlier(s, b) && EarlierOne(s, a, b) && Earlier(s, a);
    PointAfterSeen(s, b);
    if !s.reqs[a].cmd.write && !s.reqs[b].cmd.write {
      Fewer(s.reqs[a].earlier, s.reqs[b].earlier, a);
    }
  }

  /** What is before a request: exactly the writes of a prefix of the log. */
  lemma WritesBefore(s: State, r: nat, i: nat)
    requires Inv(s) && Effective(s, r) && i < |s.log| && s.log[i].keys != {}
    ensures Effective(s, s.log[i].req)
    ensures Before(s, s.log[i].req, r) <==> i < Prefix(s.reqs[r])
  {
    assert s.log[i] == s.history[i] && Traced(s, i);
    assert Recorded(s, r);
    if s.reqs[r].cmd.write {
      var j := s.reqs[r].position - 1;
      assert s.log[j] == s.history[j];
    }
  }

  /** How much of the log comes before a request. */
  function Prefix(q: Request): int { if q.cmd.write then Point(q) - 1 else Point(q) }

  /** What a request found is what the log before it gives. */
  lemma FoundBefore(s: State, r: nat)
    requires Inv(s) && Effective(s, r)
    ensures 0 <= Prefix(s.reqs[r]) <= |s.log|
    ensures s.reqs[r].values == View(s.log[..Prefix(s.reqs[r])], s.reqs[r].cmd.keys)
  {
    assert Recorded(s, r) && Placed(s, r);
    var n := Prefix(s.reqs[r]);
    assert s.log[..n] == s.history[..n];
  }

  /** The request has its place in the order: after all that had been answered when it was submitted,
      and finding what the writes before it have left. */
  ghost predicate Serial(s: State, r: nat) {
    && Effective(s, r)
    && (forall a | a in s.reqs[r].earlier && a in s.reqs && (s.reqs[a].cmd.write ==> s.reqs[a].cmd.keys != {}) ::
          Effective(s, a) && Before(s, a, r))
    && exists n: nat :: SerialAt(s, r, n)
  }

  ghost predicate SerialAt(s: State, r: nat, n: nat)
    requires r in s.reqs
  {
    && n <= |s.log| && s.reqs[r].values == View(s.log[..n], s.reqs[r].cmd.keys)
    && forall i | 0 <= i < |s.log| && s.log[i].keys != {} ::
         Effective(s, s.log[i].req) && (Before(s, s.log[i].req, r) <==> i < n)
  }

  /** Nothing that the order goes by changes once a request has taken effect. */
  ghost predicate Fixed(s: State, s': State, r: nat)
    requires r in s.reqs
  {
    && r in s'.reqs
    && var q, q' := s.reqs[r], s'.reqs[r];
       q'.cmd == q.cmd && q'.earlier == q.earlier && q'.values == q.values && Point(q') == Point(q)
  }

  lemma StepFixes(s: State, step: Step, r: nat)
    requires Enabled(LockFirst, s, step) && Effective(s, r)
    ensures Effective(Next(LockFirst, s, step), r) && Fixed(s, Next(LockFirst, s, step), r)
  {}

  /** The order of two requests, once both have taken effect, stays what it is for the rest of the run,
      and so does what they found. */
  lemma {:induction false} OrderStays(s: State, steps: seq<Step>, s': State, a: nat, b: nat)
    requires Run(LockFirst, s, steps) == Some(s') && Effective(s, a) && Effective(s, b)
    ensures Effective(s', a) && Effective(s', b) && s'.reqs[a].values == s.reqs[a].values
    ensures Before(s', a, b) <==> Before(s, a, b)
    decreases |steps|
  {
    if steps != [] {
      StepFixes(s, steps[0], a);
      StepFixes(s, steps[0], b);
      OrderStays(Next(LockFirst, s, steps[0]), steps[1..], s', a, b);
    }
  }

  /** Every answered request of every run, but a write without a key, has its place in the one order:
      after all that had been answered when it was submitted, and finding on its keys what a prefix
      of the log gives, of which the writes are exactly those before it. */
  lemma StronglyConsistent(s: State, r: nat)
    requires Reachable(LockFirst, s) && In(s, r, Answered) && (s.reqs[r].cmd.write ==> s.reqs[r].cmd.keys != {})
    ensures Serial(s, r)
  {
    AnsweredIsEffective(s, r);
    ReachableInv(s);
    forall a | a in s.reqs[r].earlier && a in s.reqs && (s.reqs[a].cmd.write ==> s.reqs[a].cmd.keys != {})
      ensures Effective(s, a) && Before(s, a, r)
    {
      assert Earlier(s, r) && EarlierOne(s, a, r);
      AnsweredIsEffective(s, a);
      KeepsRealTime(s, a, r);
    }
    FoundBefore(s, r);
    forall i | 0 <= i < |s.log| && s.log[i].keys != {}
      ensures Effective(s, s.log[i].req) && (Before(s, s.log[i].req, r) <==> i < Prefix(s.reqs[r]))
    {
      WritesBefore(s, r, i);
    }
    assert SerialAt(s, r, Prefix(s.reqs[r]));
  }
}
