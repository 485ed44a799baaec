/** That waiting can end: from every state of every run in the intended order the stream can be drained,
    and then a request that waits can be answered, unless a key that it waits for is held by a write
    that has not reached the stream, or the removal of its lock has been missed. A write that
    never reaches the stream is never answered. */
module ProtocolProgress {
  import opened Options
  import opened Protocol
  import opened ProtocolInvariant
  import opened ProtocolTheorems

  /** The key is held by a write that has left no entry in the stream, or none yet. */
  ghost predicate HeldBack(s: State, k: Key) {
    k in s.locks && s.locks[k] in s.reqs && Holding(s.reqs[s.locks[k]])
  }

  /** The key is in an entry that has not been unlocked. */
  ghost predicate InFlight(s: State, k: Key) {
    exists i :: Released(s) <= i < |s.history| && i >= 0 && k in s.history[i].keys
  }

  /** A locked key is one of its holder's, and held back or in flight. */
  ghost predicate Explained(s: State, k: Key) {
    && k in s.locks && s.locks[k] in s.reqs && k in s.reqs[s.locks[k]].cmd.keys
    && (HeldBack(s, k) || InFlight(s, k))
  }

  ghost predicate LocksExplained(s: State) {
    forall k | k in s.locks :: Explained(s, k)
  }

  // ---- every step keeps it ----

  lemma SameFlight(s: State, s': State, k: Key)
    requires InFlight(s, k) && s.history <= s'.history && Released(s') <= Released(s)
    ensures InFlight(s', k)
  {
    var i :| Released(s) <= i < |s.history| && i >= 0 && k in s.history[i].keys;
    assert s'.history[i] == s.history[i];
  }

  /** A step that leaves the lock of `k` alone and does not make its holder reach the stream. */
  lemma ExplainedStays(s: State, s': State, k: Key)
    requires Explained(s, k) && k in s'.locks && s'.locks[k] == s.locks[k]
    requires s.history <= s'.history && Released(s') <= Released(s)
    requires s.locks[k] in s'.reqs && s'.reqs[s.locks[k]].cmd == s.reqs[s.locks[k]].cmd
    requires Holding(s.reqs[s.locks[k]]) ==> Holding(s'.reqs[s.locks[k]])
    ensures Explained(s', k)
  {
    if !HeldBack(s, k) { SameFlight(s, s', k); }
  }

  lemma WriteExplained(s: State, r: nat, delta: Store, streamed: bool)
    requires LocksExplained(s) && LogFollows(s) && Enabled(LockFirst, s, Write(r, delta, streamed))
    ensures LocksExplained(Next(LockFirst, s, Write(r, delta, streamed)))
  {
    var s' := Next(LockFirst, s, Write(r, delta, streamed));
    forall k | k in s'.locks ensures Explained(s', k) {
      assert Explained(s, k);
      if s.locks[k] == r && streamed {
        assert s'.history[|s.history|].keys == s.reqs[r].cmd.keys;
        assert InFlight(s', k);
      } else {
        ExplainedStays(s, s', k);
      }
    }
  }

  lemma UnlockExplained(s: State)
    requires LocksExplained(s) && LogFollows(s) && Enabled(LockFirst, s, Unlock)
    ensures LocksExplained(Next(LockFirst, s, Unlock))
  {
    var s', u := Next(LockFirst, s, Unlock), |s.log| - 1;
    assert s.history[u] == s.log[u];
    forall k | k in s'.locks ensures Explained(s', k) {
      assert Explained(s, k);
      if !HeldBack(s, k) {
        var i :| Released(s) <= i < |s.history| && i >= 0 && k in s.history[i].keys;
        assert InFlight(s', k);
      }
    }
  }

  lemma StepExplained(s: State, step: Step)
    requires LocksExplained(s) && LogFollows(s) && Enabled(LockFirst, s, step)
    ensures LocksExplained(Next(LockFirst, s, step))
  {
    var s' := Next(LockFirst, s, step);
    match step
    case Write(r, delta, streamed) => WriteExplained(s, r, delta, streamed);
    case Unlock => UnlockExplained(s);
    case _ =>
      forall k | k in s'.locks ensures Explained(s', k) {
        if k in s.locks { ExplainedStays(s, s', k); }
      }
  }

  lemma {:induction false} RunExplained(s: State, steps: seq<Step>, s': State)
    requires Inv(s) && LocksExplained(s) && Run(LockFirst, s, steps) == Some(s')
    ensures LocksExplained(s')
    decreases |steps|
  {
    if steps != [] {
      StepExplained(s, steps[0]);
      StepKeepsInv(s, steps[0]);
      RunExplained(Next(LockFirst, s, steps[0]), steps[1..], s');
    }
  }

  lemma ReachableExplained(s: State)
    requires Reachable(LockFirst, s)
    ensures LocksExplained(s)
  {
    var steps :| Run(LockFirst, Init, steps) == Some(s);
    RunExplained(Init, steps, s);
  }

  // ---- going on ----

  /** Some run leads from one state to the other. */
  ghost predicate Leads(s: State, s': State) {
    exists steps :: Run(LockFirst, s, steps) == Some(s')
  }

  lemma {:induction false} RunJoin(s: State, a: seq<Step>, mid: State, b: seq<Step>, s': State)
    requires Run(LockFirst, s, a) == Some(mid) && Run(LockFirst, mid, b) == Some(s')
    ensures Run(LockFirst, s, a + b) == Some(s')
    decreases |a|
  {
    if a == [] {
      assert a + b == b;
    } else {
      RunJoin(Next(LockFirst, s, a[0]), a[1..], mid, b, s');
      assert (a + b)[1..] == a[1..] + b;
    }
  }

  lemma LeadsOn(s: State, mid: State, s': State)
    requires Leads(s, mid) && Leads(mid, s')
    ensures Leads(s, s')
  {
    var a :| Run(LockFirst, s, a) == Some(mid);
    var b :| Run(LockFirst, mid, b) == Some(s');
    RunJoin(s, a, mid, b, s');
  }

  lemma OneStep(s: State, step: Step)
    requires Enabled(LockFirst, s, step)
    ensures Leads(s, Next(LockFirst, s, step))
  {
    assert [step][0] == step && [step][1..] == [];
    assert Run(LockFirst, s, [step]) == Some(Next(LockFirst, s, step));
  }

  lemma NoStep(s: State)
    ensures Leads(s, s)
  {
    assert Run(LockFirst, s, []) == Some(s);
  }

  lemma LeadsReachable(s: State, s': State)
    requires Reachable(LockFirst, s) && Leads(s, s')
    ensures Reachable(LockFirst, s')
  {
    var a :| Run(LockFirst, Init, a) == Some(s);
    var b :| Run(LockFirst, s, b) == Some(s');
    RunJoin(Init, a, s, b, s');
  }

  // ---- draining the stream ----

  /** All of the stream is in the log, with its keys unlocked. */
  ghost predicate Drained(s: State) { s.log == s.history && !s.unlocking }

  /** Draining changes no request, and only removes locks, each told by a later removal. */
  ghost predicate OnlyDrained(s: State, s': State) {
    && s'.reqs == s.reqs && s'.history == s.history && s.removals <= s'.removals
    && forall k | k in s.locks && !(k in s'.locks && s'.locks[k] == s.locks[k]) ::
         exists j :: |s.removals| <= j < |s'.removals| && k in s'.removals[j]
  }

  lemma DrainedOn(s: State, mid: State, s': State)
    requires OnlyDrained(s, mid) && OnlyDrained(mid, s')
    ensures OnlyDrained(s, s')
  {
    forall k | k in s.locks && !(k in s'.locks && s'.locks[k] == s.locks[k])
      ensures exists j :: |s.removals| <= j < |s'.removals| && k in s'.removals[j]
    {
      if k in mid.locks && mid.locks[k] == s.locks[k] {
        var j :| |mid.removals| <= j < |s'.removals| && k in s'.removals[j];
      } else {
        var j :| |s.removals| <= j < |mid.removals| && k in mid.removals[j];
        assert s'.removals[j] == mid.removals[j];
      }
    }
  }

  lemma DrainStep(s: State) returns (step: Step)
    requires LogFollows(s) && !Drained(s)
    ensures Enabled(LockFirst, s, step) && OnlyDrained(s, Next(LockFirst, s, step))
    ensures var s' := Next(LockFirst, s, step); Remaining(s') < Remaining(s)
  {
    if s.unlocking {
      step := Unlock;
      var s', n := Next(LockFirst, s, Unlock), |s.removals|;
      assert s'.removals[n] == s.log[|s.log| - 1].keys;
      forall k | k in s.locks && k !in s'.locks ensures n <= n < |s'.removals| && k in s'.removals[n] {}
    } else {
      step := Append;
      assert |s.log| == |s.history| ==> s.log == s.history;
    }
  }

  function Remaining(s: State): int { 2 * (|s.history| - |s.log|) + if s.unlocking then 1 else 0 }

  // ---- answering ----

  ghost predicate OthersSame(s: State, s': State, r: nat) {
    s'.reqs.Keys == s.reqs.Keys && forall q | q in s.reqs && q != r :: s'.reqs[q] == s.reqs[q]
  }

  /** The removal of a key's lock is yet to be told to the request. */
  ghost predicate ToBeTold(s: State, r: nat, k: Key)
    requires r in s.reqs
  {
    exists j :: s.reqs[r].from <= j < |s.removals| && k in s.removals[j]
  }

  /** A request that waits for keys whose removals are all yet to be told can be answered. */
  lemma {:induction false} CanBeTold(s: State, r: nat) returns (s': State)
    requires In(s, r, Waiting) && forall k | k in s.reqs[r].wait :: ToBeTold(s, r, k)
    requires s.reqs[r].wait != {}
    ensures Leads(s, s') && In(s', r, Answered) && OthersSame(s, s', r)
    decreases |s.removals| - s.reqs[r].from
  {
    var i, wait := s.reqs[r].from, s.reqs[r].wait;
    var k :| k in wait;
    assert ToBeTold(s, r, k);
    var mid := Next(LockFirst, s, Deliver(r, i));
    OneStep(s, Deliver(r, i));
    if wait - s.removals[i] == {} {
      s' := mid;
    } else {
      forall x | x in mid.reqs[r].wait ensures ToBeTold(mid, r, x) {
        assert ToBeTold(s, r, x);
        var j :| i <= j < |s.removals| && x in s.removals[j];
      }
      s' := CanBeTold(mid, r);
      LeadsOn(s, mid, s');
    }
  }

  /** After draining, a key that is locked is held back. */
  lemma DrainedHeld(s: State, k: Key)
    requires Drained(s) && LocksExplained(s) && k in s.locks
    ensures HeldBack(s, k)
  {
    assert Explained(s, k);
  }

  /** No key of the request is held by a write that has not reached the stream; and if it waits already,
      then for a key at least, and each is still locked or its removal yet to be told. */
  ghost predicate Hopeful(s: State, r: nat)
    requires r in s.reqs
  {
    && (forall k | k in s.reqs[r].cmd.keys :: !HeldBack(s, k))
    && (s.reqs[r].phase.Waiting? ==>
          s.reqs[r].wait != {} && s.reqs[r].wait <= s.reqs[r].cmd.keys && s.reqs[r].from <= |s.removals|
          && forall k | k in s.reqs[r].wait :: k in s.locks || ToBeTold(s, r, k))
  }

  lemma FreeWhenDrained(s: State, s': State, k: Key)
    requires OnlyDrained(s, s') && Drained(s') && LocksExplained(s') && !HeldBack(s, k)
    requires k in s'.locks ==> k in s.locks && s'.locks[k] == s.locks[k]
    ensures k !in s'.locks
  {
    if k in s'.locks { DrainedHeld(s', k); }
  }

  /** From every state that a run reaches, appending and unlocking drains the stream; it takes no locks. */
  lemma {:induction false} CanDrain(s: State) returns (s': State)
    requires Inv(s) && LocksExplained(s)
    ensures Leads(s, s') && Inv(s') && LocksExplained(s') && Drained(s') && OnlyDrained(s, s')
    ensures forall k | k in s'.locks :: k in s.locks && s'.locks[k] == s.locks[k]
    decreases Remaining(s)
  {
    if Drained(s) {
      s' := s;
      NoStep(s);
    } else {
      var step := DrainStep(s);
      var mid := Next(LockFirst, s, step);
      StepKeepsInv(s, step);
      StepExplained(s, step);
      OneStep(s, step);
      DrainTakesNone(s, step);
      s' := CanDrain(mid);
      LeadsOn(s, mid, s');
      DrainedOn(s, mid, s');
    }
  }

  lemma DrainTakesNone(s: State, step: Step)
    requires Enabled(LockFirst, s, step) && Next(LockFirst, s, step).reqs == s.reqs
    ensures forall k | k in Next(LockFirst, s, step).locks ::
              k in s.locks && Next(LockFirst, s, step).locks[k] == s.locks[k]
  {}

  /** From every state of every run, a hopeful request that has been executed can be answered, without
      any other request doing anything more. */
  lemma CanBeAnswered(s: State, r: nat) returns (s': State)
    requires Reachable(LockFirst, s) && (In(s, r, Responded) || In(s, r, Waiting)) && Hopeful(s, r)
    ensures Leads(s, s') && In(s', r, Answered) && OthersSame(s, s', r)
  {
    ReachableInv(s);
    ReachableExplained(s);
    var mid := CanDrain(s);
    forall k | k in s.reqs[r].cmd.keys ensures k !in mid.locks { FreeWhenDrained(s, mid, k); }
    if In(s, r, Responded) {
      assert mid.reqs[r].cmd.keys * mid.locks.Keys == {};
      OneStep(mid, Check(r));
      s' := Next(LockFirst, mid, Check(r));
    } else {
      forall k | k in s.reqs[r].wait ensures ToBeTold(mid, r, k) { StillToBeTold(s, mid, r, k); }
      s' := CanBeTold(mid, r);
    }
    LeadsOn(s, mid, s');
  }

  lemma StillToBeTold(s: State, s': State, r: nat, k: Key)
    requires OnlyDrained(s, s') && r in s.reqs && s.reqs[r].from <= |s.removals| && k !in s'.locks
    requires k in s.locks || ToBeTold(s, r, k)
    ensures ToBeTold(s', r, k)
  {
    if k in s.locks {
      var j :| |s.removals| <= j < |s'.removals| && k in s'.removals[j];
    } else {
      var j :| s.reqs[r].from <= j < |s.removals| && k in s.removals[j];
      assert s'.removals[j] == s.removals[j];
    }
  }

  // ---- never answering ----

  lemma {:induction false} UnstreamedStays(s: State, steps: seq<Step>, s': State, r: nat)
    requires Run(LockFirst, s, steps) == Some(s')
    requires r in s.reqs && s.reqs[r].cmd.write && s.reqs[r].Executed() && !s.reqs[r].streamed
    ensures r in s'.reqs && s'.reqs[r].cmd == s.reqs[r].cmd && !s'.reqs[r].streamed
    decreases |steps|
  {
    if steps != [] { UnstreamedStays(Next(LockFirst, s, steps[0]), steps[1..], s', r); }
  }

  /** A write with a key that the upstream store executed without putting it into the stream is never
      answered, however the run goes on. */
  lemma UnstreamedNeverAnswered(s: State, s': State, r: nat)
    requires Reachable(LockFirst, s) && Leads(s, s')
    requires r in s.reqs && s.reqs[r].cmd.write && s.reqs[r].cmd.keys != {}
    requires s.reqs[r].Executed() && !s.reqs[r].streamed
    ensures r in s'.reqs && !In(s', r, Answered)
  {
    var steps :| Run(LockFirst, s, steps) == Some(s');
    UnstreamedStays(s, steps, s', r);
    LeadsReachable(s, s');
    ReachableInv(s');
    if In(s', r, Answered) { AnsweredIsLogged(s', r); }
  }
}
