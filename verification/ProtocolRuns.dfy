/** What the protocol's states have to do with the steps that led to them: the store and the log hold
    what the write steps wrote, a request is the one submitted, and what the theorems call earlier
    is what had been answered before. */
module ProtocolRuns {
  import opened Options
  import opened Protocol
  import opened ProtocolInvariant
  import opened ProtocolTheorems
  import opened ProtocolOrder

  /** The run up to its last step. */
  lemma {:induction false} RunLast(order: Order, s: State, steps: seq<Step>, s': State) returns (mid: State)
    requires steps != [] && Run(order, s, steps) == Some(s')
    ensures Run(order, s, steps[..|steps| - 1]) == Some(mid)
    ensures Enabled(order, mid, steps[|steps| - 1]) && s' == Next(order, mid, steps[|steps| - 1])
    decreases |steps|
  {
    var n := |steps| - 1;
    if n == 0 {
      mid := s;
      assert steps[1..] == [];
    } else {
      mid := RunLast(order, Next(order, s, steps[0]), steps[1..], s');
      assert steps[1..][..n - 1] == steps[..n][1..];
    }
  }

  /** The run cut in two. */
  lemma {:induction false} RunSplit(order: Order, steps: seq<Step>, s: State, j: nat) returns (mid: State)
    requires Run(order, Init, steps) == Some(s) && j <= |steps|
    ensures Run(order, Init, steps[..j]) == Some(mid) && Run(order, mid, steps[j..]) == Some(s)
    decreases |steps| - j
  {
    if j == |steps| {
      mid := s;
      assert steps[..j] == steps && steps[j..] == [];
    } else {
      var next := RunSplit(order, steps, s, j + 1);
      mid := RunLast(order, Init, steps[..j + 1], next);
      assert steps[..j + 1][..j] == steps[..j];
      assert steps[j..][1..] == steps[j + 1..];
    }
  }

  // ---- what was written ----

  /** `v` is what the last of the write steps that write `k` wrote there; None if there is none. */
  ghost predicate WrittenBy(steps: seq<Step>, k: Key, v: Option<string>) {
    || (v == None && forall j | 0 <= j < |steps| && steps[j].Write? :: k !in steps[j].delta)
    || exists i :: LastWriter(steps, k, i) && v == steps[i].delta[k]
  }

  ghost predicate LastWriter(steps: seq<Step>, k: Key, i: int) {
    && 0 <= i < |steps| && steps[i].Write? && k in steps[i].delta
    && forall j | i < j < |steps| && steps[j].Write? :: k !in steps[j].delta
  }

  lemma WrittenSnoc(steps: seq<Step>, k: Key, v: Option<string>)
    requires steps != [] && WrittenBy(steps[..|steps| - 1], k, v)
    ensures var last := steps[|steps| - 1];
            WrittenBy(steps, k, if last.Write? && k in last.delta then last.delta[k] else v)
  {
    var n := |steps| - 1;
    assert forall j | 0 <= j < n :: steps[..n][j] == steps[j];
    if steps[n].Write? && k in steps[n].delta {
      assert LastWriter(steps, k, n);
    } else if i :| LastWriter(steps[..n], k, i) && v == steps[..n][i].delta[k] {
      assert LastWriter(steps, k, i);
    }
  }

  /** In either order, the upstream store holds on every key what the last write step of the run that
      wrote it wrote there, and nothing if there was none. */
  lemma {:induction false} StoreIsWritten(order: Order, steps: seq<Step>, s: State, k: Key)
    requires Run(order, Init, steps) == Some(s)
    ensures WrittenBy(steps, k, Lookup(s.store, k))
    decreases |steps|
  {
    if steps != [] {
      var mid := RunLast(order, Init, steps, s);
      StoreIsWritten(order, steps[..|steps| - 1], mid, k);
      WrittenSnoc(steps, k, Lookup(mid.store, k));
    }
  }

  /** A write as it was issued: by which request, and what it changed. */
  datatype Issue = Issue(req: nat, delta: Store)

  /** The writes of the run that the replication stream carries, in order. */
  function Issued(steps: seq<Step>): seq<Issue> {
    if steps == [] then []
    else
      var last := steps[|steps| - 1];
      Issued(steps[..|steps| - 1]) + if last.Write? && last.streamed then [Issue(last.req, last.delta)] else []
  }

  lemma {:induction false} IssuedIff(steps: seq<Step>, r: nat, delta: Store)
    ensures Issue(r, delta) in Issued(steps) <==> Write(r, delta, true) in steps
  {
    if steps != [] {
      var n := |steps| - 1;
      IssuedIff(steps[..n], r, delta);
      assert steps == steps[..n] + [steps[n]];
    }
  }

  ghost predicate CarriesIssued(history: seq<Entry>, issued: seq<Issue>) {
    |history| == |issued| && forall i | 0 <= i < |history| :: Issue(history[i].req, history[i].delta) == issued[i]
  }

  /** In either order, the replication stream carries exactly the writes issued, each under its own
      request, in order; and the log is a beginning of it. */
  lemma {:induction false} StreamIsIssued(order: Order, steps: seq<Step>, s: State)
    requires Run(order, Init, steps) == Some(s)
    ensures CarriesIssued(s.history, Issued(steps)) && s.log <= s.history
    decreases |steps|
  {
    if steps != [] {
      var mid := RunLast(order, Init, steps, s);
      StreamIsIssued(order, steps[..|steps| - 1], mid);
    }
  }

  /** An entry of the stream is a write step of its request, with what that step wrote; and conversely. */
  lemma EntryIff(order: Order, steps: seq<Step>, s: State, r: nat, delta: Store)
    requires Run(order, Init, steps) == Some(s)
    ensures (exists i :: 0 <= i < |s.history| && s.history[i].req == r && s.history[i].delta == delta) <==>
            Write(r, delta, true) in steps
  {
    StreamIsIssued(order, steps, s);
    IssuedIff(steps, r, delta);
    if Issue(r, delta) in Issued(steps) {
      var i :| 0 <= i < |Issued(steps)| && Issued(steps)[i] == Issue(r, delta);
      assert s.history[i].req == r && s.history[i].delta == delta;
    }
    if i :| 0 <= i < |s.history| && s.history[i].req == r && s.history[i].delta == delta {
      assert Issued(steps)[i] == Issue(r, delta);
    }
  }

  /** `v` is what the last of these writes that write `k` left there; None if there is none. */
  ghost predicate LeftBy(writes: seq<Issue>, k: Key, v: Option<string>) {
    || (v == None && forall j | 0 <= j < |writes| :: k !in writes[j].delta)
    || exists i :: LastOf(writes, k, i) && v == writes[i].delta[k]
  }

  ghost predicate LastOf(writes: seq<Issue>, k: Key, i: int) {
    0 <= i < |writes| && k in writes[i].delta && forall j | i < j < |writes| :: k !in writes[j].delta
  }

  /** Replaying entries gives what the last of the writes they carry left. */
  lemma {:induction false} ReplayIsLeft(entries: seq<Entry>, writes: seq<Issue>, k: Key)
    requires CarriesIssued(entries, writes)
    ensures LeftBy(writes, k, Lookup(Replay(entries), k))
  {
    if entries != [] {
      var n := |entries| - 1;
      ReplayIsLeft(entries[..n], writes[..n], k);
      assert forall j | 0 <= j < n :: writes[..n][j] == writes[j];
      assert writes[n] == Issue(entries[n].req, entries[n].delta);
      if k in entries[n].delta {
        assert LastOf(writes, k, n);
      } else if i :| LastOf(writes[..n], k, i) && Lookup(Replay(entries[..n]), k) == writes[..n][i].delta[k] {
        assert LastOf(writes, k, i);
      }
    }
  }

  lemma LogIsLeft(order: Order, steps: seq<Step>, s: State, n: nat, k: Key)
    requires Run(order, Init, steps) == Some(s) && n <= |s.log|
    ensures n <= |Issued(steps)| && LeftBy(Issued(steps)[..n], k, Lookup(Replay(s.log[..n]), k))
  {
    StreamIsIssued(order, steps, s);
    ReplayIsLeft(s.log[..n], Issued(steps)[..n], k);
  }

  /** Every answered request of every run, but a write without a key, found on each of its keys what the
      last of the first `n` writes issued left there; of these writes the ones with a key are exactly
      those before it in the one order. */
  lemma FindsIssued(steps: seq<Step>, s: State, r: nat) returns (n: nat)
    requires Run(LockFirst, Init, steps) == Some(s)
    requires In(s, r, Answered) && (s.reqs[r].cmd.write ==> s.reqs[r].cmd.keys != {})
    ensures n <= |s.log| && SerialAt(s, r, n) && s.reqs[r].values.Keys == s.reqs[r].cmd.keys
    ensures n <= |Issued(steps)|
    ensures forall k | k in s.reqs[r].cmd.keys :: LeftBy(Issued(steps)[..n], k, s.reqs[r].values[k])
  {
    StronglyConsistent(s, r);
    n :| SerialAt(s, r, n);
    LogIsLeft(LockFirst, steps, s, n, "");
    forall k | k in s.reqs[r].cmd.keys ensures LeftBy(Issued(steps)[..n], k, s.reqs[r].values[k]) {
      LogIsLeft(LockFirst, steps, s, n, k);
    }
  }

  // ---- what was submitted, and when ----

  function AnsweredIn(s: State): set<nat> {
    set a | a in s.reqs && s.reqs[a].phase.Answered?
  }

  ghost predicate SameSubmission(s: State, s': State, r: nat)
    requires r in s.reqs
  {
    && r in s'.reqs && s'.reqs[r].cmd == s.reqs[r].cmd
    && s'.reqs[r].seen == s.reqs[r].seen && s'.reqs[r].earlier == s.reqs[r].earlier
    && (In(s, r, Answered) ==> s'.reqs[r] == s.reqs[r])
  }

  lemma {:induction false} RunKeepsSubmission(order: Order, s: State, steps: seq<Step>, s': State, r: nat)
    requires Run(order, s, steps) == Some(s') && r in s.reqs
    ensures SameSubmission(s, s', r)
    decreases |steps|
  {
    if steps != [] { RunKeepsSubmission(order, Next(order, s, steps[0]), steps[1..], s', r); }
  }

  /** A request is the command submitted under its name, and what it has recorded of its submission is
      how it was then: the length of the log, and which requests had been answered. */
  lemma SubmissionIs(order: Order, steps: seq<Step>, s: State, j: nat) returns (before: State)
    requires Run(order, Init, steps) == Some(s) && j < |steps| && steps[j].Submit?
    ensures Run(order, Init, steps[..j]) == Some(before)
    ensures var r := steps[j].req;
            && r in s.reqs && s.reqs[r].cmd == steps[j].cmd
            && s.reqs[r].seen == |before.log| && s.reqs[r].earlier == AnsweredIn(before)
  {
    before := RunSplit(order, steps, s, j);
    assert steps[j..][0] == steps[j];
    RunKeepsSubmission(order, Next(order, before, steps[j]), steps[j..][1..], s, steps[j].req);
  }

  /** Every request was submitted. */
  lemma {:induction false} EverySubmitted(order: Order, steps: seq<Step>, s: State, r: nat)
    requires Run(order, Init, steps) == Some(s) && r in s.reqs
    ensures Submit(r, s.reqs[r].cmd) in steps
    decreases |steps|
  {
    var n := |steps| - 1;
    var mid := RunLast(order, Init, steps, s);
    if r in mid.reqs {
      EverySubmitted(order, steps[..n], mid, r);
      assert steps[n] == Submit(r, s.reqs[r].cmd) || s.reqs[r].cmd == mid.reqs[r].cmd;
    }
  }

  /** Real time: of two requests that have taken effect, one that had been answered when the other was
      submitted is before it. */
  lemma RealTime(steps: seq<Step>, s: State, j: nat, before: State, a: nat)
    requires Run(LockFirst, Init, steps) == Some(s) && j < |steps| && steps[j].Submit?
    requires Run(LockFirst, Init, steps[..j]) == Some(before) && In(before, a, Answered)
    requires before.reqs[a].cmd.write ==> before.reqs[a].cmd.keys != {}
    requires Effective(s, steps[j].req)
    ensures Effective(s, a) && Before(s, a, steps[j].req) && s.reqs[a] == before.reqs[a]
  {
    var again := SubmissionIs(LockFirst, steps, s, j);
    var mid := RunSplit(LockFirst, steps, s, j);
    RunKeepsSubmission(LockFirst, before, steps[j..], s, a);
    AnsweredIsEffective(s, a);
    ReachableInv(s);
    KeepsRealTime(s, a, steps[j].req);
  }

  // ---- such runs ----

  lemma WriteExecuted(cmd: Command, delta: Store) returns (s: State)
    requires cmd.write && delta.Keys <= cmd.keys
    ensures Reachable(LockFirst, s) && In(s, 0, Responded) && s.reqs[0].cmd == cmd && s.reqs.Keys == {0}
    ensures s.log == [] && s.history == [Entry(0, cmd.keys, delta)] && !s.unlocking
    ensures s.locks.Keys == cmd.keys && s.store == delta
  {
    Start(LockFirst);
    s := Extend(LockFirst, Init, Submit(0, cmd));
    s := Extend(LockFirst, s, Lock(0));
    s := Extend(LockFirst, s, Write(0, delta, true));
  }

  lemma WriteAnswered(cmd: Command, delta: Store) returns (s: State)
    requires cmd.write && delta.Keys <= cmd.keys
    ensures Reachable(LockFirst, s) && In(s, 0, Answered) && s.reqs.Keys == {0}
    ensures s.log == s.history == [Entry(0, cmd.keys, delta)] && s.locks == map[] && s.store == delta
  {
    s := WriteExecuted(cmd, delta);
    s := Extend(LockFirst, s, Append);
    s := Extend(LockFirst, s, Unlock);
    assert s.locks == map[];
    s := Extend(LockFirst, s, Check(0));
  }

  /** In the intended order every write can come to be answered, and a read after that finds what it
      wrote, set or deleted. */
  lemma WriteThenRead(cmd: Command, delta: Store, read: Command) returns (s: State)
    requires cmd.write && delta.Keys <= cmd.keys && !read.write
    ensures Reachable(LockFirst, s) && In(s, 0, Answered) && In(s, 1, Answered) && s.reqs[1].cmd == read
    ensures 0 in s.reqs[1].earlier && s.reqs[1].values == map k | k in read.keys :: Lookup(delta, k)
  {
    s := WriteAnswered(cmd, delta);
    s := Extend(LockFirst, s, Submit(1, read));
    s := Extend(LockFirst, s, Read(1));
    s := Extend(LockFirst, s, Check(1));
  }
}
