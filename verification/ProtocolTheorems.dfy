/** What the protocol promises its clients, in every state of every run; and the short runs that
    break the promise when requests are forwarded before their keys are locked. */
module ProtocolTheorems {
  import opened Options
  import opened Protocol
  import opened ProtocolInvariant

  /** `s` is a state of some run of the protocol. */
  ghost predicate Reachable(order: Order, s: State) {
    exists steps :: Run(order, Init, steps) == Some(s)
  }

  lemma ReachableInv(s: State)
    requires Reachable(LockFirst, s)
    ensures Inv(s)
  {
    var steps :| Run(LockFirst, Init, steps) == Some(s);
    RunKeepsInv(Init, steps, s);
  }

  /** The request has an entry in the log. */
  ghost predicate Logged(s: State, r: nat, n: nat) {
    exists i :: 0 <= i < n && i < |s.log| && s.log[i].req == r
  }

  lemma ReplayUnlocked(s: State, n: nat, k: Key)
    requires Inv(s) && |s.log| <= n <= |s.history|
    requires forall i | |s.log| <= i < n :: k !in s.history[i].keys
    ensures Lookup(Replay(s.history[..n]), k) == Lookup(Replay(s.log), k)
  {
    forall i | |s.log| <= i < n ensures k !in s.history[i].delta { assert Traced(s, i); }
    ReplayUntouched(s.history, |s.log|, n, k);
  }

  /** Replaying the log gives, on every key that is not locked, exactly the upstream store's value. */
  lemma LogAgreesOnUnlocked(s: State, k: Key)
    requires Reachable(LockFirst, s) && k !in s.locks
    ensures Lookup(Replay(s.log), k) == Lookup(s.store, k)
  {
    ReachableInv(s);
    forall i | |s.log| <= i < |s.history| ensures k !in s.history[i].keys { LockedInFlight(s, i); }
    ReplayUnlocked(s, |s.history|, k);
    assert s.history[..|s.history|] == s.history;
  }

  lemma WriteIsLogged(s: State, r: nat)
    requires Inv(s) && In(s, r, Answered) && s.reqs[r].cmd.write && s.reqs[r].cmd.keys != {}
    ensures Logged(s, r, s.reqs[r].position)
  {
    AnsweredIsLogged(s, r);
    assert Recorded(s, r);
    var i := s.reqs[r].position - 1;
    assert s.log[i] == s.history[i];
  }

  /** Every answered write that has a key is in the log. */
  lemma AnsweredWriteIsLogged(s: State, r: nat)
    requires Reachable(LockFirst, s) && In(s, r, Answered) && s.reqs[r].cmd.write && s.reqs[r].cmd.keys != {}
    ensures Logged(s, r, |s.log|)
  {
    ReachableInv(s);
    WriteIsLogged(s, r);
  }

  // ---- building runs ----

  lemma {:induction false} RunSnoc(order: Order, s: State, steps: seq<Step>, s': State, step: Step)
    requires Run(order, s, steps) == Some(s') && Enabled(order, s', step)
    ensures Run(order, s, steps + [step]) == Some(Next(order, s', step))
    decreases |steps|
  {
    if steps == [] {
      assert ([] + [step])[1..] == [];
    } else {
      RunSnoc(order, Next(order, s, steps[0]), steps[1..], s', step);
      assert (steps + [step])[1..] == steps[1..] + [step];
    }
  }

  lemma Extend(order: Order, s: State, step: Step) returns (s': State)
    requires Reachable(order, s) && Enabled(order, s, step)
    ensures s' == Next(order, s, step) && Reachable(order, s')
  {
    var steps :| Run(order, Init, steps) == Some(s);
    RunSnoc(order, Init, steps, s, step);
    s' := Next(order, s, step);
  }

  lemma Start(order: Order)
    ensures Reachable(order, Init)
  {
    assert Run(order, Init, []) == Some(Init);
  }

  // ---- which writes are answered only once they are logged ----

  ghost predicate AnswersOnlyLogged(order: Order, cmd: Command) {
    forall s, r | Reachable(order, s) && In(s, r, Answered) && s.reqs[r].cmd == cmd :: Logged(s, r, |s.log|)
  }

  /** A write with no key takes no lock, so there is nothing its answer waits for. */
  lemma KeylessLeaks(cmd: Command) returns (s: State)
    requires cmd.write && cmd.keys == {}
    ensures Reachable(LockFirst, s) && In(s, 0, Answered) && s.reqs[0].cmd == cmd && s.log == []
  {
    Start(LockFirst);
    s := Extend(LockFirst, Init, Submit(0, cmd));
    s := Extend(LockFirst, s, Lock(0));
    s := Extend(LockFirst, s, Write(0, map[], true));
    s := Extend(LockFirst, s, Check(0));
  }

  /** Forwarding first, of two writes on the same keys the second is answered when the first is
      unlocked. */
  lemma ForwardFirstLeaksWrite(cmd: Command) returns (s: State)
    requires cmd.write
    ensures Reachable(ForwardFirst, s) && In(s, 1, Answered) && s.reqs[1].cmd == cmd
    ensures s.log == [Entry(0, cmd.keys, map[])]
  {
    var s6 := BothForwarded(cmd);
    s := Extend(ForwardFirst, s6, Append);
    s := Extend(ForwardFirst, s, Unlock);
    assert s.locks == map[];
    s := Extend(ForwardFirst, s, Check(1));
  }

  lemma BothForwarded(cmd: Command) returns (s: State)
    requires cmd.write
    ensures Reachable(ForwardFirst, s) && In(s, 1, Responded) && s.reqs[1].cmd == cmd
    ensures s.log == [] && !s.unlocking && s.locks.Keys == cmd.keys
    ensures s.history == [Entry(0, cmd.keys, map[]), Entry(1, cmd.keys, map[])]
  {
    Start(ForwardFirst);
    s := Extend(ForwardFirst, Init, Submit(0, cmd));
    s := Extend(ForwardFirst, s, Submit(1, cmd));
    s := Extend(ForwardFirst, s, Write(0, map[], true));
    s := Extend(ForwardFirst, s, Write(1, map[], true));
    s := Extend(ForwardFirst, s, Lock(0));
    s := Extend(ForwardFirst, s, Lock(1));
  }

  /** Writes of a command are answered only once they are in the log if and only if the keys are
      locked before the command is forwarded, and it has a key. */
  lemma AnswersOnlyLoggedIff(order: Order, cmd: Command)
    requires cmd.write
    ensures AnswersOnlyLogged(order, cmd) <==> order.LockFirst? && cmd.keys != {}
  {
    if order.ForwardFirst? {
      var s := ForwardFirstLeaksWrite(cmd);
      assert !Logged(s, 1, |s.log|);
    } else if cmd.keys == {} {
      var s := KeylessLeaks(cmd);
      assert !Logged(s, 0, |s.log|);
    } else {
      forall s, r | Reachable(LockFirst, s) && In(s, r, Answered) && s.reqs[r].cmd == cmd
        ensures Logged(s, r, |s.log|)
      {
        AnsweredWriteIsLogged(s, r);
      }
    }
  }

  /** Every answered read returned, on all its keys together, what replaying a prefix of the log
      gives. The prefix takes in all that was logged when the read was submitted, and every write
      that had been answered by then. */
  lemma AnsweredReadIsLogged(s: State, r: nat) returns (n: nat)
    requires Reachable(LockFirst, s) && In(s, r, Answered) && !s.reqs[r].cmd.write
    ensures s.reqs[r].seen <= n <= |s.log|
    ensures s.reqs[r].values == View(s.log[..n], s.reqs[r].cmd.keys)
    ensures forall a | a in s.reqs[r].earlier && a in s.reqs && s.reqs[a].cmd.write && s.reqs[a].cmd.keys != {} ::
              Logged(s, a, n)
  {
    ReachableInv(s);
    var q := s.reqs[r];
    assert Placed(s, r) && Earlier(s, r);
    n := Point(q);
    assert s.log[..n] == s.history[..n];
    forall a | a in q.earlier && a in s.reqs && s.reqs[a].cmd.write && s.reqs[a].cmd.keys != {} ensures Logged(s, a, n) {
      assert EarlierOne(s, a, r);
      WriteIsLogged(s, a);
    }
  }

  // ---- which reads are answered only from the log ----

  ghost predicate ReadsOnlyLogged(order: Order, cmd: Command) {
    forall s, r | Reachable(order, s) && In(s, r, Answered) && s.reqs[r].cmd == cmd :: FromLog(s, r)
  }

  ghost predicate FromLog(s: State, r: nat)
    requires r in s.reqs
  {
    exists n: nat :: n <= |s.log| && s.reqs[r].values == View(s.log[..n], s.reqs[r].cmd.keys)
  }

  /** In either order a request finds values on its own keys only. */
  ghost predicate OwnKeys(s: State) {
    forall r | r in s.reqs :: s.reqs[r].values.Keys <= s.reqs[r].cmd.keys
  }

  lemma {:induction false} RunKeepsOwnKeys(order: Order, s: State, steps: seq<Step>, s': State)
    requires OwnKeys(s) && Run(order, s, steps) == Some(s')
    ensures OwnKeys(s')
    decreases |steps|
  {
    if steps != [] { RunKeepsOwnKeys(order, Next(order, s, steps[0]), steps[1..], s'); }
  }

  lemma KeylessFromLog(order: Order, s: State, r: nat)
    requires Reachable(order, s) && r in s.reqs && s.reqs[r].cmd.keys == {}
    ensures FromLog(s, r)
  {
    var steps :| Run(order, Init, steps) == Some(s);
    RunKeepsOwnKeys(order, Init, steps, s);
    assert s.reqs[r].values == map[] == View(s.log[..0], {});
  }

  lemma WriteForwarded(cmd: Command, k: Key, v: string) returns (s: State)
    requires !cmd.write && k in cmd.keys
    ensures Reachable(ForwardFirst, s) && In(s, 1, Submitted) && s.reqs[1].cmd == cmd
    ensures s.log == [] && s.locks == map[] && s.store == map[k := Some(v)]
  {
    Start(ForwardFirst);
    s := Extend(ForwardFirst, Init, Submit(0, Command(true, cmd.keys)));
    s := Extend(ForwardFirst, s, Submit(1, cmd));
    s := Extend(ForwardFirst, s, Write(0, map[k := Some(v)], true));
  }

  /** Forwarding first, a read of any command that has a key is answered with a value that no part of
      the log gives. */
  lemma ForwardFirstLeaksRead(cmd: Command, k: Key, v: string) returns (s: State)
    requires !cmd.write && k in cmd.keys
    ensures Reachable(ForwardFirst, s) && In(s, 1, Answered) && s.reqs[1].cmd == cmd
    ensures k in s.reqs[1].values && s.reqs[1].values[k] == Some(v) && s.log == []
    ensures !FromLog(s, 1)
  {
    s := WriteForwarded(cmd, k, v);
    s := Extend(ForwardFirst, s, Read(1));
    s := Extend(ForwardFirst, s, Check(1));
    assert View(s.log[..0], cmd.keys)[k] == None;
  }

  /** Reads of a command are answered only with what a prefix of the log gives if and only if writes
      lock their keys before they are forwarded, or it reads no key at all. */
  lemma ReadsOnlyLoggedIff(order: Order, cmd: Command)
    requires !cmd.write
    ensures ReadsOnlyLogged(order, cmd) <==> order.LockFirst? || cmd.keys == {}
  {
    if order.ForwardFirst? && cmd.keys != {} {
      var k :| k in cmd.keys;
      var s := ForwardFirstLeaksRead(cmd, k, "");
    } else {
      forall s, r | Reachable(order, s) && In(s, r, Answered) && s.reqs[r].cmd == cmd ensures FromLog(s, r) {
        if cmd.keys == {} {
          KeylessFromLog(order, s, r);
        } else {
          var _ := AnsweredReadIsLogged(s, r);
        }
      }
    }
  }
}
