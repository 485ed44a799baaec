/** What every step of the protocol in its intended order keeps. */
module ProtocolInvariant {
  import opened Options
  import opened Protocol

  /** How many entries of the stream have had their keys unlocked. */
  function Released(s: State): int { if s.unlocking then |s.log| - 1 else |s.log| }

  /** The log is what has been read of the stream. */
  ghost predicate LogFollows(s: State) {
    && |s.log| <= |s.history| && s.log == s.history[..|s.log|] && (s.unlocking ==> s.log != [])
    && s.store == Replay(s.history)
  }

  /** The i-th entry of the stream is the trace of an executed write. */
  ghost predicate Traced(s: State, i: nat)
    requires i < |s.history|
  {
    var e := s.history[i];
    && e.delta.Keys <= e.keys && e.req in s.reqs
    && var q := s.reqs[e.req]; q.cmd.write && q.cmd.keys == e.keys && q.streamed && q.position == i + 1 && q.Executed()
  }

  ghost predicate AllTraced(s: State) {
    forall i | 0 <= i < |s.history| :: Traced(s, i)
  }

  ghost predicate Holds(s: State, r: nat, keys: set<Key>) {
    forall k | k in keys :: k in s.locks && s.locks[k] == r
  }

  /** An entry keeps its keys locked until it is in the log and they are unlocked. */
  ghost predicate InFlightLocked(s: State) {
    forall i | Released(s) <= i < |s.history| && i >= 0 :: Holds(s, s.history[i].req, s.history[i].keys)
  }

  /** A write with no entry yet, or one that was executed and left none, has its keys locked. */
  ghost predicate Holding(q: Request) {
    q.cmd.write && (q.phase.Locked? || (q.Executed() && !q.streamed))
  }

  ghost predicate HoldersLocked(s: State) {
    forall r | r in s.reqs && Holding(s.reqs[r]) :: Holds(s, r, s.reqs[r].cmd.keys)
  }

  /** What replaying `entries` gives on `keys`. */
  function View(entries: seq<Entry>, keys: set<Key>): Store {
    map k | k in keys :: Lookup(Replay(entries), k)
  }

  /** What a request has recorded of its execution is still so. */
  ghost predicate Recorded(s: State, r: nat)
    requires r in s.reqs
  {
    var q := s.reqs[r];
    && q.seen <= |s.log|
    && !q.phase.Forwarded?
    && (q.Executed() ==>
          && q.seen <= q.position <= |s.history|
          && (q.cmd.write && q.streamed ==>
                && q.seen < q.position && s.history[q.position - 1].req == r
                && q.values == View(s.history[..q.position - 1], q.cmd.keys))
          && (!q.cmd.write ==> q.values == View(s.history[..q.position], q.cmd.keys)))
  }

  ghost predicate AllRecorded(s: State) {
    forall r | r in s.reqs :: Recorded(s, r)
  }

  /** No entry that the request could have observed on `k` is still locked, nor does it hold `k`. */
  ghost predicate Clear(s: State, r: nat, k: Key)
    requires r in s.reqs
  {
    && (forall i | Released(s) <= i < s.reqs[r].position && 0 <= i < |s.history| :: k !in s.history[i].keys)
    && !(k in s.locks && s.locks[k] == r)
  }

  /** A waiting request is clear of the keys it no longer waits for and of those removed since it
      began to wait; an answered one is clear of all its keys. */
  ghost predicate Settled(s: State, r: nat)
    requires r in s.reqs
  {
    var q := s.reqs[r];
    && (q.phase.Waiting? ==>
          && q.from <= |s.removals|
          && (forall k | k in q.cmd.keys && k !in q.wait :: Clear(s, r, k))
          && (forall j | q.from <= j < |s.removals| :: forall k | k in s.removals[j] && k in q.cmd.keys :: Clear(s, r, k)))
    && (q.phase.Answered? ==> forall k | k in q.cmd.keys :: Clear(s, r, k))
  }

  ghost predicate AllSettled(s: State) {
    forall r | r in s.reqs :: Settled(s, r)
  }

  /** The length of the log prefix by which a request takes effect: a write with its own entry, a read
      with all it has observed of the log by the time it is answered. */
  function Point(q: Request): nat {
    if q.cmd.write || q.position <= q.until then q.position else q.until
  }

  /** An answered read is what the log gives at its point. */
  ghost predicate Placed(s: State, r: nat)
    requires r in s.reqs
  {
    var q := s.reqs[r];
    q.phase.Answered? && !q.cmd.write ==>
      q.seen <= Point(q) <= |s.log| <= |s.history| && q.values == View(s.history[..Point(q)], q.cmd.keys)
  }

  ghost predicate AllPlaced(s: State) {
    forall r | r in s.reqs :: Placed(s, r)
  }

  /** What had been answered when a request was submitted had taken effect in the log by then. */
  ghost predicate Earlier(s: State, r: nat)
    requires r in s.reqs
  {
    && r !in s.reqs[r].earlier
    && forall a | a in s.reqs[r].earlier :: EarlierOne(s, a, r)
  }

  ghost predicate EarlierOne(s: State, a: nat, r: nat)
    requires r in s.reqs
  {
    && In(s, a, Answered)
    && s.reqs[a].earlier <= s.reqs[r].earlier
    && (!s.reqs[a].cmd.write ==> Point(s.reqs[a]) <= s.reqs[r].seen)
    && (s.reqs[a].cmd.write && s.reqs[a].cmd.keys != {} ==> s.reqs[a].streamed && s.reqs[a].position <= s.reqs[r].seen)
  }

  ghost predicate AllEarlier(s: State) {
    forall r | r in s.reqs :: Earlier(s, r)
  }

  ghost predicate Inv(s: State) {
    && LogFollows(s) && AllTraced(s) && InFlightLocked(s) && HoldersLocked(s)
    && AllRecorded(s) && AllSettled(s) && AllPlaced(s) && AllEarlier(s)
  }

  /** An answered write with at least one key has its entry in the log, with its keys unlocked. */
  lemma AnsweredIsLogged(s: State, r: nat)
    requires Inv(s) && In(s, r, Answered) && s.reqs[r].cmd.write && s.reqs[r].cmd.keys != {}
    ensures s.reqs[r].streamed && 1 <= s.reqs[r].position <= Released(s)
  {
    var q := s.reqs[r];
    var k :| k in q.cmd.keys;
    assert Settled(s, r) && Recorded(s, r);
    assert Clear(s, r, k);
    if q.streamed {
      var i := q.position - 1;
      assert Traced(s, i);
    }
  }

  // ---- what a step leaves alone ----

  /** `s'` is later than `s`, and nothing has changed of a request but for those in `who`. */
  ghost predicate Later(s: State, s': State, who: set<nat>) {
    && s.history <= s'.history && |s.log| <= |s'.log| && Released(s) <= Released(s') && s.removals <= s'.removals
    && s'.reqs.Keys == s.reqs.Keys + who
    && (forall q | q in s.reqs && q !in who :: s'.reqs[q] == s.reqs[q])
    && (forall k | k in s'.locks && s'.locks[k] !in who :: k in s.locks && s.locks[k] == s'.locks[k])
    && (forall r | r in who :: !In(s, r, Answered) && SameExecution(s, s', r))
  }

  /** The request goes on with the same execution, or has not been executed before. */
  ghost predicate SameExecution(s: State, s': State, r: nat) {
    r in s.reqs && s.reqs[r].Executed() ==>
      r in s'.reqs && s'.reqs[r].Executed() && s'.reqs[r].cmd == s.reqs[r].cmd
      && s'.reqs[r].streamed == s.reqs[r].streamed && s'.reqs[r].position == s.reqs[r].position
  }

  /** The waiting requests are clear of the keys whose locks have been removed since `s`. */
  ghost predicate RemovedClear(s: State, s': State)
    requires |s.removals| <= |s'.removals|
  {
    forall q | In(s', q, Waiting) :: forall j | |s.removals| <= j < |s'.removals| ::
      forall k | k in s'.removals[j] && k in s'.reqs[q].cmd.keys :: Clear(s', q, k)
  }

  lemma TracedStays(s: State, s': State, who: set<nat>)
    requires AllTraced(s) && Later(s, s', who)
    ensures forall i | 0 <= i < |s.history| :: Traced(s', i)
  {
    forall i | 0 <= i < |s.history| ensures Traced(s', i) { assert Traced(s, i); }
  }

  lemma RecordedStays(s: State, s': State, who: set<nat>)
    requires AllRecorded(s) && Later(s, s', who)
    ensures forall q | q in s.reqs && q !in who :: Recorded(s', q)
  {
    forall q | q in s.reqs && q !in who ensures Recorded(s', q) {
      assert Recorded(s, q);
      if s.reqs[q].Executed() {
        assert s'.history[..s.reqs[q].position] == s.history[..s.reqs[q].position];
        assert s.reqs[q].position >= 1 ==> s'.history[..s.reqs[q].position - 1] == s.history[..s.reqs[q].position - 1];
      }
    }
  }

  /** Being clear is lost neither by the stream growing, nor by keys being unlocked, nor by others
      taking locks. */
  lemma ClearStays(s: State, s': State, who: set<nat>, q: nat, k: Key)
    requires Later(s, s', who) && q in s.reqs && q !in who && s.reqs[q].position <= |s.history|
    requires Clear(s, q, k)
    ensures Clear(s', q, k)
  {}

  lemma SettledStays(s: State, s': State, who: set<nat>)
    requires AllRecorded(s) && AllSettled(s) && Later(s, s', who) && RemovedClear(s, s')
    ensures forall q | q in s.reqs && q !in who :: Settled(s', q)
  {
    forall q | q in s.reqs && q !in who ensures Settled(s', q) {
      assert Settled(s, q) && Recorded(s, q);
      forall k | k in s.reqs[q].cmd.keys && s.reqs[q].Executed() && Clear(s, q, k) ensures Clear(s', q, k) {
        ClearStays(s, s', who, q, k);
      }
    }
  }

  lemma EarlierStays(s: State, s': State, who: set<nat>)
    requires AllEarlier(s) && Later(s, s', who)
    ensures forall q | q in s.reqs && q !in who :: Earlier(s', q)
  {
    forall q | q in s.reqs && q !in who ensures Earlier(s', q) {
      assert Earlier(s, q);
      forall a | a in s.reqs[q].earlier ensures EarlierOne(s', a, q) { assert EarlierOne(s, a, q); }
    }
  }

  lemma PlacedStays(s: State, s': State, who: set<nat>)
    requires AllPlaced(s) && LogFollows(s') && Later(s, s', who)
    ensures forall q | q in s.reqs && q !in who :: Placed(s', q)
  {
    forall q | q in s.reqs && q !in who ensures Placed(s', q) {
      assert Placed(s, q);
      if In(s, q, Answered) && !s.reqs[q].cmd.write {
        assert s'.history[..Point(s.reqs[q])] == s.history[..Point(s.reqs[q])];
      }
    }
  }

  ghost predicate LocksKept(s: State) { InFlightLocked(s) && HoldersLocked(s) }

  /** What remains to be shown of a step that concerns the requests in `who`. */
  lemma InvFrom(s: State, s': State, who: set<nat>)
    requires Inv(s) && Later(s, s', who) && RemovedClear(s, s')
    requires LogFollows(s') && LocksKept(s')
    requires forall i | |s.history| <= i < |s'.history| :: Traced(s', i)
    requires forall r | r in who :: Recorded(s', r) && Settled(s', r) && Placed(s', r) && Earlier(s', r)
    ensures Inv(s')
  {
    TracedStays(s, s', who);
    RecordedStays(s, s', who);
    SettledStays(s, s', who);
    PlacedStays(s, s', who);
    EarlierStays(s, s', who);
  }

  lemma InvFromOne(s: State, s': State, r: nat)
    requires Inv(s) && Later(s, s', {r}) && s'.removals == s.removals
    requires LogFollows(s') && LocksKept(s')
    requires forall i | |s.history| <= i < |s'.history| :: Traced(s', i)
    requires Recorded(s', r) && Settled(s', r) && Placed(s', r) && Earlier(s', r)
    ensures Inv(s')
  {
    InvFrom(s, s', {r});
  }

  lemma LockedInFlight(s: State, i: nat)
    requires LocksKept(s) && Released(s) <= i < |s.history|
    ensures Holds(s, s.history[i].req, s.history[i].keys)
  {}

  /** A step that moves neither the locks nor the stream, nor makes a request a holder. */
  lemma SameLocks(s: State, s': State, r: nat)
    requires LocksKept(s) && s'.history == s.history && s'.locks == s.locks && Released(s') == Released(s)
    requires s'.reqs.Keys == s.reqs.Keys + {r} && forall q | q in s.reqs && q != r :: s'.reqs[q] == s.reqs[q]
    requires Holding(s'.reqs[r]) ==> r in s.reqs && Holding(s.reqs[r]) && s'.reqs[r].cmd == s.reqs[r].cmd
    ensures LocksKept(s')
  {
    forall i | Released(s) <= i < |s.history| && i >= 0 ensures Holds(s', s.history[i].req, s.history[i].keys) {
      LockedInFlight(s, i);
    }
    forall q | q in s'.reqs && Holding(s'.reqs[q]) ensures Holds(s', q, s'.reqs[q].cmd.keys) {
      assert Holding(s.reqs[q]);
    }
  }

  /** A step that does not touch what a request recorded when it was submitted. */
  lemma EarlierSame(s: State, s': State, r: nat)
    requires AllEarlier(s) && Later(s, s', {r}) && r in s.reqs
    requires s'.reqs[r].earlier == s.reqs[r].earlier && s'.reqs[r].seen == s.reqs[r].seen
    ensures Earlier(s', r)
  {
    assert Earlier(s, r);
    forall a | a in s.reqs[r].earlier ensures EarlierOne(s', a, r) { assert EarlierOne(s, a, r); }
  }

  // ---- the steps ----

  lemma SubmitEarlier(s: State, r: nat, cmd: Command)
    requires Inv(s) && Enabled(LockFirst, s, Submit(r, cmd))
    ensures Earlier(Next(LockFirst, s, Submit(r, cmd)), r)
  {
    var s' := Next(LockFirst, s, Submit(r, cmd));
    forall a | a in s'.reqs[r].earlier ensures EarlierOne(s', a, r) {
      assert In(s, a, Answered) && Placed(s, a) && Earlier(s, a);
      if s.reqs[a].cmd.write && s.reqs[a].cmd.keys != {} { AnsweredIsLogged(s, a); }
      forall b | b in s.reqs[a].earlier ensures b in s'.reqs[r].earlier { assert EarlierOne(s, b, a); }
    }
  }

  lemma SubmitStep(s: State, r: nat, cmd: Command)
    requires Inv(s) && Enabled(LockFirst, s, Submit(r, cmd))
    ensures Inv(Next(LockFirst, s, Submit(r, cmd)))
  {
    var s' := Next(LockFirst, s, Submit(r, cmd));
    SubmitEarlier(s, r, cmd);
    SameLocks(s, s', r);
    InvFromOne(s, s', r);
  }

  lemma LockLocks(s: State, r: nat)
    requires LocksKept(s) && Enabled(LockFirst, s, Lock(r))
    ensures LocksKept(Next(LockFirst, s, Lock(r)))
  {
    var s' := Next(LockFirst, s, Lock(r));
    forall q, keys: set<Key> | Holds(s, q, keys) ensures Holds(s', q, keys) {}
    forall i | Released(s) <= i < |s.history| && i >= 0 ensures Holds(s', s.history[i].req, s.history[i].keys) {
      LockedInFlight(s, i);
    }
  }

  lemma LockRecorded(s: State, r: nat)
    requires LogFollows(s) && Enabled(LockFirst, s, Lock(r)) && Recorded(s, r)
    ensures var s' := Next(LockFirst, s, Lock(r)); LogFollows(s') && Later(s, s', {r}) && Recorded(s', r)
  {}

  lemma LockStep(s: State, r: nat)
    requires Inv(s) && Enabled(LockFirst, s, Lock(r))
    ensures Inv(Next(LockFirst, s, Lock(r)))
  {
    var s' := Next(LockFirst, s, Lock(r));
    LockLocks(s, r);
    LockRecorded(s, r);
    EarlierSame(s, s', r);
    InvFromOne(s, s', r);
  }

  lemma ReplaySnoc(entries: seq<Entry>, e: Entry)
    ensures Replay(entries + [e]) == Replay(entries) + e.delta
  {
    assert (entries + [e])[..|entries|] == entries;
  }

  lemma WriteLocks(s: State, r: nat, delta: Store, streamed: bool)
    requires LocksKept(s) && LogFollows(s) && Enabled(LockFirst, s, Write(r, delta, streamed))
    ensures LocksKept(Next(LockFirst, s, Write(r, delta, streamed)))
  {
    var s' := Next(LockFirst, s, Write(r, delta, streamed));
    assert Holds(s, r, s.reqs[r].cmd.keys);
    forall i | Released(s) <= i < |s'.history| && i >= 0 ensures Holds(s', s'.history[i].req, s'.history[i].keys) {
      if i < |s.history| { LockedInFlight(s, i); }
    }
    forall q | q in s'.reqs && Holding(s'.reqs[q]) ensures Holds(s', q, s'.reqs[q].cmd.keys) {
      assert Holding(s.reqs[q]);
    }
  }

  lemma WriteRecorded(s: State, r: nat, delta: Store, streamed: bool)
    requires LogFollows(s) && Enabled(LockFirst, s, Write(r, delta, streamed)) && Recorded(s, r)
    ensures var s' := Next(LockFirst, s, Write(r, delta, streamed));
            && LogFollows(s') && Later(s, s', {r}) && Recorded(s', r)
            && forall i | |s.history| <= i < |s'.history| :: Traced(s', i)
  {
    var s' := Next(LockFirst, s, Write(r, delta, streamed));
    if streamed {
      ReplaySnoc(s.history, Entry(r, s.reqs[r].cmd.keys, delta));
      assert s'.history[..|s.history|] == s.history;
    }
  }

  lemma WriteStep(s: State, r: nat, delta: Store, streamed: bool)
    requires Inv(s) && Enabled(LockFirst, s, Write(r, delta, streamed))
    ensures Inv(Next(LockFirst, s, Write(r, delta, streamed)))
  {
    var s' := Next(LockFirst, s, Write(r, delta, streamed));
    WriteLocks(s, r, delta, streamed);
    WriteRecorded(s, r, delta, streamed);
    EarlierSame(s, s', r);
    InvFromOne(s, s', r);
  }

  lemma ReadRecorded(s: State, r: nat)
    requires LogFollows(s) && Enabled(LockFirst, s, Read(r)) && Recorded(s, r)
    ensures var s' := Next(LockFirst, s, Read(r)); LogFollows(s') && Later(s, s', {r}) && Recorded(s', r)
  {
    assert s.history[..|s.history|] == s.history;
  }

  lemma ReadStep(s: State, r: nat)
    requires Inv(s) && Enabled(LockFirst, s, Read(r))
    ensures Inv(Next(LockFirst, s, Read(r)))
  {
    var s' := Next(LockFirst, s, Read(r));
    SameLocks(s, s', r);
    ReadRecorded(s, r);
    EarlierSame(s, s', r);
    InvFromOne(s, s', r);
  }

  lemma AppendStep(s: State)
    requires Inv(s) && Enabled(LockFirst, s, Append)
    ensures Inv(Next(LockFirst, s, Append))
  {
    var s' := Next(LockFirst, s, Append);
    assert s.history[..|s.log| + 1] == s.history[..|s.log|] + [s.history[|s.log|]];
    assert LocksKept(s');
    InvFrom(s, s', {});
  }

  /** Of the entries still locked, only the one being unlocked touches its keys. */
  lemma UnlockedAlone(s: State, i: nat, k: Key)
    requires LocksKept(s) && LogFollows(s) && AllTraced(s) && s.unlocking
    requires |s.log| <= i < |s.history| && k in s.log[|s.log| - 1].keys
    ensures k !in s.history[i].keys
  {
    var u := |s.log| - 1;
    LockedInFlight(s, u);
    LockedInFlight(s, i);
    assert Traced(s, u) && Traced(s, i);
  }

  lemma UnlockLocks(s: State)
    requires LocksKept(s) && LogFollows(s) && AllTraced(s) && Enabled(LockFirst, s, Unlock)
    ensures LocksKept(Next(LockFirst, s, Unlock))
  {
    var s' := Next(LockFirst, s, Unlock);
    var u := |s.log| - 1;
    LockedInFlight(s, u);
    assert Traced(s, u);
    forall i | |s.log| <= i < |s.history| ensures Holds(s', s.history[i].req, s.history[i].keys) {
      LockedInFlight(s, i);
      forall k | k in s.history[i].keys ensures k !in s.history[u].keys {
        if k in s.history[u].keys { UnlockedAlone(s, i, k); }
      }
    }
    forall q | q in s.reqs && Holding(s.reqs[q]) ensures Holds(s', q, s.reqs[q].cmd.keys) {
      assert Holds(s, q, s.reqs[q].cmd.keys);
    }
  }

  lemma UnlockStep(s: State)
    requires Inv(s) && Enabled(LockFirst, s, Unlock)
    ensures Inv(Next(LockFirst, s, Unlock))
  {
    var s' := Next(LockFirst, s, Unlock);
    UnlockLocks(s);
    assert RemovedClear(s, s') by {
      forall q, k | In(s', q, Waiting) && k in s.log[|s.log| - 1].keys ensures Clear(s', q, k) {
        forall i | |s.log| <= i < |s.history| ensures k !in s.history[i].keys { UnlockedAlone(s, i, k); }
      }
    }
    InvFrom(s, s', {});
  }

  /** A key that is not locked is clear. */
  lemma UnlockedIsClear(s: State, r: nat, k: Key)
    requires LocksKept(s) && LogFollows(s) && r in s.reqs && k !in s.locks
    ensures Clear(s, r, k)
  {
    forall i | Released(s) <= i < s.reqs[r].position && 0 <= i < |s.history| ensures k !in s.history[i].keys {
      LockedInFlight(s, i);
    }
  }

  /** Entries that do not touch a key do not change what replaying gives on it. */
  lemma {:induction false} ReplayUntouched(h: seq<Entry>, m: nat, n: nat, k: Key)
    requires m <= n <= |h|
    requires forall i | m <= i < n :: k !in h[i].delta
    ensures Lookup(Replay(h[..n]), k) == Lookup(Replay(h[..m]), k)
    decreases n
  {
    if m < n {
      ReplayUntouched(h, m, n - 1, k);
      assert h[..n] == h[..n - 1] + [h[n - 1]];
      ReplaySnoc(h[..n - 1], h[n - 1]);
    }
  }

  /** A read that is clear of all its keys has observed nothing past the log. */
  lemma AnswerPlaced(s: State, r: nat, from: nat)
    requires Inv(s) && (In(s, r, Responded) || In(s, r, Waiting)) && !s.reqs[r].cmd.write
    requires forall k | k in s.reqs[r].cmd.keys :: Clear(s, r, k)
    ensures Placed(Await(s, r, {}, from), r)
  {
    var q := s.reqs[r];
    assert Recorded(s, r);
    if q.position > |s.log| {
      forall k | k in q.cmd.keys ensures Lookup(Replay(s.history[..q.position]), k) == Lookup(Replay(s.history[..|s.log|]), k) {
        assert Clear(s, r, k);
        forall i | |s.log| <= i < q.position ensures k !in s.history[i].delta { assert Traced(s, i); }
        ReplayUntouched(s.history, |s.log|, q.position, k);
      }
    }
  }

  /** Going on waiting, or answering, on keys of which all those not waited for are clear. */
  lemma AwaitStep(s: State, r: nat, wait: set<Key>, from: nat)
    requires Inv(s) && (In(s, r, Responded) || In(s, r, Waiting)) && from <= |s.removals|
    requires forall k | k in s.reqs[r].cmd.keys && k !in wait :: Clear(s, r, k)
    requires forall j | from <= j < |s.removals| ::
               forall k | k in s.removals[j] && k in s.reqs[r].cmd.keys :: Clear(s, r, k)
    ensures Inv(Await(s, r, wait, from))
  {
    var s' := Await(s, r, wait, from);
    AwaitRecorded(s, r, wait, from);
    EarlierSame(s, s', r);
    if wait == {} && !s.reqs[r].cmd.write { AnswerPlaced(s, r, from); }
    SameLocks(s, s', r);
    InvFromOne(s, s', r);
  }

  lemma AwaitRecorded(s: State, r: nat, wait: set<Key>, from: nat)
    requires (In(s, r, Responded) || In(s, r, Waiting)) && from <= |s.removals| && Recorded(s, r)
    requires forall k | k in s.reqs[r].cmd.keys && k !in wait :: Clear(s, r, k)
    requires forall j | from <= j < |s.removals| ::
               forall k | k in s.removals[j] && k in s.reqs[r].cmd.keys :: Clear(s, r, k)
    ensures var s' := Await(s, r, wait, from); Later(s, s', {r}) && Recorded(s', r) && Settled(s', r)
  {
    var s' := Await(s, r, wait, from);
    forall k | k in s.reqs[r].cmd.keys && Clear(s, r, k) ensures Clear(s', r, k) {}
  }

  lemma CheckStep(s: State, r: nat)
    requires Inv(s) && Enabled(LockFirst, s, Check(r))
    ensures Inv(Next(LockFirst, s, Check(r)))
  {
    forall k | k !in s.locks ensures Clear(s, r, k) { UnlockedIsClear(s, r, k); }
    AwaitStep(s, r, s.reqs[r].cmd.keys * s.locks.Keys, |s.removals|);
  }

  lemma DeliverStep(s: State, r: nat, i: nat)
    requires Inv(s) && Enabled(LockFirst, s, Deliver(r, i))
    ensures Inv(Next(LockFirst, s, Deliver(r, i)))
  {
    assert Settled(s, r);
    AwaitStep(s, r, s.reqs[r].wait - s.removals[i], i + 1);
  }

  /** Every step keeps the invariant. */
  lemma StepKeepsInv(s: State, step: Step)
    requires Inv(s) && Enabled(LockFirst, s, step)
    ensures Inv(Next(LockFirst, s, step))
  {
    match step
    case Submit(r, cmd) => SubmitStep(s, r, cmd);
    case Lock(r) => LockStep(s, r);
    case Write(r, delta, streamed) => WriteStep(s, r, delta, streamed);
    case Read(r) => ReadStep(s, r);
    case Append => AppendStep(s);
    case Unlock => UnlockStep(s);
    case Check(r) => CheckStep(s, r);
    case Deliver(r, i) => DeliverStep(s, r, i);
  }

  /** So it holds in every state that a run reaches. */
  lemma {:induction false} RunKeepsInv(s: State, steps: seq<Step>, s': State)
    requires Inv(s) && Run(LockFirst, s, steps) == Some(s')
    ensures Inv(s')
    decreases |steps|
  {
    if steps != [] {
      StepKeepsInv(s, steps[0]);
      RunKeepsInv(Next(LockFirst, s, steps[0]), steps[1..], s');
    }
  }
}
