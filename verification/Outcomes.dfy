/** How the calls of the store that start over come out: which of the transactions they are granted
    they use, when they fail, and that a transaction that fails changes nothing. */
module Outcomes {
  import opened Bytes
  import opened Options
  import opened Badger
  import opened LogStore
  import opened StoreRefinement

  // ---- DeleteRange ----

  /** A transaction that fills up on the keys still to be deleted, and is committed. */
  ghost predicate GoesOn(db: Db, min: uint64, max: uint64, t: Txn) {
    |Hits(db, min, max)| > t.room && t.limit.TooBig? && t.commits
  }

  /** A transaction that meets a write error other than "too big", or does not commit. */
  ghost predicate Breaks(db: Db, min: uint64, max: uint64, t: Txn) {
    (|Hits(db, min, max)| > t.room && t.limit.Fault?) || !t.commits
  }

  /** A transaction that takes all the keys still to be deleted, and is committed. */
  ghost predicate Completes(db: Db, min: uint64, max: uint64, t: Txn) {
    |Hits(db, min, max)| <= t.room && t.commits
  }

  /** Where a call stands: the database, and the index it goes on from. */
  datatype Stage = Stage(db: Db, min: uint64)

  /** Where the call stands once it has used all of `txns` and goes on, if it does. */
  ghost function Reach(db: Db, min: uint64, max: uint64, txns: seq<Txn>): Option<Stage>
    decreases |txns|
  {
    if txns == [] then Some(Stage(db, min))
    else
      var n := |txns| - 1;
      match Reach(db, min, max, txns[..n])
      case None => None
      case Some(at) =>
        if GoesOn(at.db, at.min, max, txns[n]) then Some(Onward(at.db, at.min, max, txns[n])) else None
  }

  /** A transaction that is full has deleted as many keys as it had room for, and the call goes on from
      what the next one reads as. */
  ghost function Onward(db: Db, min: uint64, max: uint64, t: Txn): Stage
    requires GoesOn(db, min, max, t)
  {
    var hits := Hits(db, min, max);
    Stage(db - Buffers(hits[..t.room]), Reading(hits[t.room]))
  }

  lemma RestartIff(db: Db, min: uint64, max: uint64, t: Txn)
    ensures DeleteTxn(db, min, max, t).Restart? <==> GoesOn(db, min, max, t)
    ensures GoesOn(db, min, max, t) ==>
      Onward(db, min, max, t) == Stage(DeleteTxn(db, min, max, t).db, DeleteTxn(db, min, max, t).min)
  {}

  lemma StopIff(db: Db, min: uint64, max: uint64, t: Txn)
    requires DeleteTxn(db, min, max, t).Stop?
    ensures var step := DeleteTxn(db, min, max, t); EndsAt(db, min, max, [t], 0, step.outcome, step.db)
  {
    assert [t][..0] == [];
  }

  /** Getting to a stage begins with the first transaction. */
  lemma {:induction false} ReachFirst(db: Db, min: uint64, max: uint64, txns: seq<Txn>)
    requires txns != []
    ensures Reach(db, min, max, txns) ==
            match DeleteTxn(db, min, max, txns[0])
            case Stop(_, _) => None
            case Restart(db', min') => Reach(db', min', max, txns[1..])
    decreases |txns|
  {
    var n := |txns| - 1;
    var step := DeleteTxn(db, min, max, txns[0]);
    if n == 0 {
      ReachOne(db, min, max, txns[0]);
      assert txns == [txns[0]] && txns[1..] == [];
    } else {
      ReachFirst(db, min, max, txns[..n]);
      assert txns[..n][0] == txns[0] && txns[..n][1..] == txns[1..][..n - 1];
      if step.Restart? { ReachNext(step.db, step.min, max, txns[1..]); }
      ReachNext(db, min, max, txns);
    }
  }

  lemma ReachOne(db: Db, min: uint64, max: uint64, t: Txn)
    ensures Reach(db, min, max, [t]) ==
            match DeleteTxn(db, min, max, t) case Stop(_, _) => None case Restart(db', min') => Some(Stage(db', min'))
  {
    RestartIff(db, min, max, t);
    ReachNext(db, min, max, [t]);
    assert [t][..0] == [];
  }

  ghost function Next(at: Option<Stage>, max: uint64, t: Txn): Option<Stage> {
    if at.Some? && GoesOn(at.value.db, at.value.min, max, t) then Some(Onward(at.value.db, at.value.min, max, t)) else None
  }

  lemma ReachNext(db: Db, min: uint64, max: uint64, txns: seq<Txn>)
    requires txns != []
    ensures Reach(db, min, max, txns) == Next(Reach(db, min, max, txns[..|txns| - 1]), max, txns[|txns| - 1])
  {}

  /** The call uses transaction `j`: it goes on after all those before it. */
  ghost predicate Uses(db: Db, min: uint64, max: uint64, txns: seq<Txn>, j: nat)
    requires j < |txns|
  {
    Reach(db, min, max, txns[..j]).Some?
  }

  /** The call comes to its end at transaction `j`, with `outcome`, leaving `db'`. */
  ghost predicate EndsAt(db: Db, min: uint64, max: uint64, txns: seq<Txn>, j: nat, outcome: Outcome, db': Db)
    requires j < |txns|
  {
    && Uses(db, min, max, txns, j)
    && var at := Reach(db, min, max, txns[..j]).value;
       || (outcome.Failed? && Breaks(at.db, at.min, max, txns[j]) && db' == at.db)
       || (outcome.Done? && Completes(at.db, at.min, max, txns[j]) && db' == at.db - Buffers(Hits(at.db, at.min, max)))
  }

  lemma EndsLater(db: Db, min: uint64, max: uint64, txns: seq<Txn>, j: nat, outcome: Outcome, db': Db)
    requires 0 < j < |txns|
    ensures EndsAt(db, min, max, txns, j, outcome, db') <==>
            && DeleteTxn(db, min, max, txns[0]).Restart?
            && var step := DeleteTxn(db, min, max, txns[0]);
               EndsAt(step.db, step.min, max, txns[1..], j - 1, outcome, db')
  {
    ReachFirst(db, min, max, txns[..j]);
    assert txns[..j][1..] == txns[1..][..j - 1];
  }

  /** The call is still running if and only if it goes on after every transaction; otherwise it has come
      to its end at one of them. */
  lemma {:induction false} DeleteEndsAt(db: Db, min: uint64, max: uint64, txns: seq<Txn>) returns (j: nat)
    ensures var (outcome, db') := DeleteRun(db, min, max, txns);
            if outcome.Running? then Reach(db, min, max, txns).Some? && Reach(db, min, max, txns).value.db == db'
            else j < |txns| && EndsAt(db, min, max, txns, j, outcome, db')
    decreases |txns|
  {
    j := 0;
    if txns != [] {
      ReachFirst(db, min, max, txns);
      var step := DeleteTxn(db, min, max, txns[0]);
      if step.Restart? {
        j := DeleteEndsAt(step.db, step.min, max, txns[1..]);
        j := j + 1;
        var (outcome, db') := DeleteRun(db, min, max, txns);
        if !outcome.Running? { EndsLater(db, min, max, txns, j, outcome, db'); }
      } else {
        StopIff(db, min, max, txns[0]);
        assert txns[..0] == [txns[0]][..0];
      }
    }
  }

  lemma {:induction false} EndedIs(db: Db, min: uint64, max: uint64, txns: seq<Txn>, j: nat, outcome: Outcome, db': Db)
    requires j < |txns| && EndsAt(db, min, max, txns, j, outcome, db')
    ensures DeleteRun(db, min, max, txns) == (outcome, db')
    decreases |txns|
  {
    if j == 0 {
      assert txns[..0] == [];
    } else {
      EndsLater(db, min, max, txns, j, outcome, db');
      var step := DeleteTxn(db, min, max, txns[0]);
      EndedIs(step.db, step.min, max, txns[1..], j - 1, outcome, db');
    }
  }

  lemma {:induction false} ReachedIs(db: Db, min: uint64, max: uint64, txns: seq<Txn>)
    requires Reach(db, min, max, txns).Some?
    ensures DeleteRun(db, min, max, txns) == (Running, Reach(db, min, max, txns).value.db)
    decreases |txns|
  {
    if txns != [] {
      ReachFirst(db, min, max, txns);
      var step := DeleteTxn(db, min, max, txns[0]);
      ReachedIs(step.db, step.min, max, txns[1..]);
    }
  }

  /** DeleteRange fails if and only if a transaction that it uses meets a fault or does not commit, and
      is done if and only if one that it uses takes all that is left and commits. */
  lemma DeleteOutcomeIff(db: Db, min: uint64, max: uint64, txns: seq<Txn>)
    ensures DeleteRun(db, min, max, txns).0.Failed? <==>
            exists j | 0 <= j < |txns| && Uses(db, min, max, txns, j) ::
              var at := Reach(db, min, max, txns[..j]).value; Breaks(at.db, at.min, max, txns[j])
    ensures DeleteRun(db, min, max, txns).0.Done? <==>
            exists j | 0 <= j < |txns| && Uses(db, min, max, txns, j) ::
              var at := Reach(db, min, max, txns[..j]).value; Completes(at.db, at.min, max, txns[j])
  {
    var i := DeleteEndsAt(db, min, max, txns);
    forall j | 0 <= j < |txns| && Uses(db, min, max, txns, j)
      ensures var at := Reach(db, min, max, txns[..j]).value;
              && (Breaks(at.db, at.min, max, txns[j]) ==> DeleteRun(db, min, max, txns).0.Failed?)
              && (Completes(at.db, at.min, max, txns[j]) ==> DeleteRun(db, min, max, txns).0.Done?)
    {
      var at := Reach(db, min, max, txns[..j]).value;
      if Breaks(at.db, at.min, max, txns[j]) {
        EndedIs(db, min, max, txns, j, Failed, at.db);
      } else if Completes(at.db, at.min, max, txns[j]) {
        EndedIs(db, min, max, txns, j, Done, at.db - Buffers(Hits(at.db, at.min, max)));
      }
    }
  }

  /** A transaction that fails changes nothing: a failed call leaves exactly what it had left, still
      running, after the transactions before the failing one. */
  lemma FailedDeleteLeaves(db: Db, min: uint64, max: uint64, txns: seq<Txn>) returns (j: nat)
    requires DeleteRun(db, min, max, txns).0.Failed?
    ensures j < |txns| && DeleteRun(db, min, max, txns[..j]) == (Running, DeleteRun(db, min, max, txns).1)
  {
    j := DeleteEndsAt(db, min, max, txns);
    ReachedIs(db, min, max, txns[..j]);
  }

  // ---- StoreLogs ----

  function Rooms(txns: seq<Txn>): nat {
    if txns == [] then 0 else Rooms(txns[..|txns| - 1]) + txns[|txns| - 1].room
  }

  lemma {:induction false} RoomsFirst(txns: seq<Txn>)
    requires txns != []
    ensures Rooms(txns) == txns[0].room + Rooms(txns[1..])
  {
    var n := |txns| - 1;
    if n == 0 {
      assert txns[..0] == [] && txns[1..] == [];
    } else {
      RoomsFirst(txns[..n]);
      assert txns[..n][1..] == txns[1..][..n - 1];
    }
  }

  lemma {:induction false} RoomsMonotone(txns: seq<Txn>, i: nat, j: nat)
    requires i <= j <= |txns|
    ensures Rooms(txns[..i]) <= Rooms(txns[..j])
    decreases j
  {
    if i < j {
      assert txns[..j][..j - 1] == txns[..j - 1];
      RoomsMonotone(txns, i, j - 1);
    }
  }

  /** The first `j` transactions of a StoreLogs of `n` entries all fill up and are committed. */
  ghost predicate Fills(n: nat, txns: seq<Txn>, j: nat)
    requires j <= |txns|
  {
    forall i | 0 <= i < j :: txns[i].commits && txns[i].limit.TooBig? && Rooms(txns[..i + 1]) < n
  }

  /** Transaction `j` is used, and there: the entries left do not fit and that is a fault, or the commit
      fails. */
  ghost predicate StoreBreaks(n: nat, txns: seq<Txn>, j: nat)
    requires j < |txns|
  {
    Fills(n, txns, j) && ((Rooms(txns[..j + 1]) < n && txns[j].limit.Fault?) || !txns[j].commits)
  }

  /** Transaction `j` is used, takes all the entries left and is committed. */
  ghost predicate StoreCompletes(n: nat, txns: seq<Txn>, j: nat)
    requires j < |txns|
  {
    Fills(n, txns, j) && Rooms(txns[..j + 1]) >= n && txns[j].commits
  }

  lemma FillsFirst(n: nat, txns: seq<Txn>, j: nat)
    requires 0 < j <= |txns| && txns[0].room <= n
    ensures Fills(n, txns, j) <==>
            && txns[0].commits && txns[0].limit.TooBig? && txns[0].room < n
            && Fills(n - txns[0].room, txns[1..], j - 1)
  {
    forall i | 0 <= i < j ensures Rooms(txns[..i + 1]) == txns[0].room + Rooms(txns[1..][..i]) {
      RoomsFirst(txns[..i + 1]);
      assert txns[..i + 1][1..] == txns[1..][..i];
    }
    assert txns[1..][..0] == [];
    if Fills(n, txns, j) {
      forall i | 0 <= i < j - 1
        ensures txns[1..][i].commits && txns[1..][i].limit.TooBig? && Rooms(txns[1..][..i + 1]) < n - txns[0].room
      {
        assert txns[1..][i] == txns[i + 1];
        assert Rooms(txns[..i + 2]) == txns[0].room + Rooms(txns[1..][..i + 1]);
      }
    }
    if txns[0].commits && txns[0].limit.TooBig? && txns[0].room < n && Fills(n - txns[0].room, txns[1..], j - 1) {
      forall i | 0 <= i < j ensures txns[i].commits && txns[i].limit.TooBig? && Rooms(txns[..i + 1]) < n {
        if i > 0 { assert txns[1..][i - 1] == txns[i]; }
      }
    }
  }

  /** How a StoreLogs comes out of `txns`: `j` is the transaction it ends at, or how many there are. */
  ghost predicate StoreEndsAt(n: nat, txns: seq<Txn>, j: nat, outcome: Outcome)
    requires j <= |txns|
  {
    match outcome
    case Running => j == |txns| && Fills(n, txns, j)
    case Failed => j < |txns| && StoreBreaks(n, txns, j)
    case Done => j < |txns| && StoreCompletes(n, txns, j)
  }

  lemma StoreEndsLater(n: nat, txns: seq<Txn>, j: nat, outcome: Outcome)
    requires 0 < j <= |txns| && txns[0].room < n
    ensures StoreEndsAt(n, txns, j, outcome) <==>
            txns[0].commits && txns[0].limit.TooBig? && StoreEndsAt(n - txns[0].room, txns[1..], j - 1, outcome)
  {
    FillsFirst(n, txns, j);
    if j < |txns| {
      RoomsFirst(txns[..j + 1]);
      assert txns[..j + 1][1..] == txns[1..][..j];
    }
  }

  /** At transaction 0 there is nothing before it. */
  lemma StoreEndsFirst(n: nat, txns: seq<Txn>, outcome: Outcome)
    requires txns != []
    ensures StoreEndsAt(n, txns, 0, outcome) <==>
            match outcome
            case Running => false
            case Failed => (txns[0].room < n && txns[0].limit.Fault?) || !txns[0].commits
            case Done => txns[0].room >= n && txns[0].commits
  {
    assert txns[..1] == [txns[0]] && [txns[0]][..0] == [];
    assert Rooms(txns[..1]) == txns[0].room;
  }

  /** StoreLogs fails if and only if a transaction that it uses meets a fault or does not commit, and is
      done if and only if those that it uses commit, meet no fault and have room for all entries. */
  lemma {:induction false} StoreOutcomeIff(db: Db, logs: seq<Log>, txns: seq<Txn>, outcome: Outcome)
    ensures StoreRun(db, logs, txns).0 == outcome <==>
            exists j | 0 <= j <= |txns| :: StoreEndsAt(|logs|, txns, j, outcome)
    decreases |txns|
  {
    if txns == [] {
      assert outcome.Running? ==> StoreEndsAt(|logs|, txns, 0, outcome);
    } else {
      var t := txns[0];
      StoreEndsFirst(|logs|, txns, outcome);
      if t.room < |logs| {
        StoreOutcomeIff(PutAll(db, logs[..t.room]), logs[t.room..], txns[1..], outcome);
        forall j | 0 < j <= |txns|
          ensures StoreEndsAt(|logs|, txns, j, outcome) <==>
                  t.commits && t.limit.TooBig? && StoreEndsAt(|logs| - t.room, txns[1..], j - 1, outcome)
        {
          StoreEndsLater(|logs|, txns, j, outcome);
        }
        if t.commits && t.limit.TooBig? && StoreRun(db, logs, txns).0 == outcome {
          var j :| 0 <= j <= |txns[1..]| && StoreEndsAt(|logs| - t.room, txns[1..], j, outcome);
          assert StoreEndsAt(|logs|, txns, j + 1, outcome);
        }
      } else {
        forall j | 0 < j <= |txns| ensures !StoreEndsAt(|logs|, txns, j, outcome) {
          RoomsMonotone(txns, 0, 1);
          assert txns[..0 + 1] == [t] && [t][..0] == [];
          assert Rooms(txns[..0 + 1]) == t.room;
        }
      }
    }
  }

  /** A StoreLogs that is done has stored the whole batch. */
  lemma StoreDoneLeaves(db: Db, logs: seq<Log>, txns: seq<Txn>)
    requires StoreRun(db, logs, txns).0.Done?
    ensures StoreRun(db, logs, txns).1 == PutAll(db, logs)
  {
    var n := StorePrefix(db, logs, txns);
    assert logs[..n] == logs;
  }

  /** What is left is the entries that fit the first `j` transactions. */
  ghost predicate Left(db: Db, logs: seq<Log>, txns: seq<Txn>, j: nat)
    requires j <= |txns|
  {
    Rooms(txns[..j]) <= |logs| && StoreRun(db, logs, txns).1 == PutAll(db, logs[..Rooms(txns[..j])])
  }

  lemma LeftOn(db: Db, logs: seq<Log>, txns: seq<Txn>, j: nat)
    requires 0 < j <= |txns| && txns[0].room < |logs| && txns[0].commits && txns[0].limit.TooBig?
    requires Left(PutAll(db, logs[..txns[0].room]), logs[txns[0].room..], txns[1..], j - 1)
    ensures Left(db, logs, txns, j)
  {
    StoreGoesOn(db, logs, txns);
    RoomsOn(txns, j);
    PutOn(db, logs, txns[0].room, Rooms(txns[1..][..j - 1]));
  }

  /** Any other one has stored the entries that fit the transactions it has filled and committed. */
  lemma {:induction false} StoreLeaves(db: Db, logs: seq<Log>, txns: seq<Txn>, j: nat, outcome: Outcome)
    requires j <= |txns| && StoreRun(db, logs, txns).0 == outcome && !outcome.Done?
    requires StoreEndsAt(|logs|, txns, j, outcome)
    ensures Left(db, logs, txns, j)
    decreases |txns|
  {
    if j == 0 {
      StoreNothing(db, logs, txns, outcome);
      assert txns[..0] == [] && logs[..0] == [];
    } else {
      FirstFills(|logs|, txns, j, outcome);
      StoreEndsLater(|logs|, txns, j, outcome);
      StoreGoesOn(db, logs, txns);
      StoreLeaves(PutAll(db, logs[..txns[0].room]), logs[txns[0].room..], txns[1..], j - 1, outcome);
      LeftOn(db, logs, txns, j);
    }
  }

  lemma StoreNothing(db: Db, logs: seq<Log>, txns: seq<Txn>, outcome: Outcome)
    requires StoreRun(db, logs, txns).0 == outcome && !outcome.Done? && StoreEndsAt(|logs|, txns, 0, outcome)
    ensures StoreRun(db, logs, txns).1 == db
  {
    if txns != [] { StoreEndsFirst(|logs|, txns, outcome); }
  }

  lemma RoomsOn(txns: seq<Txn>, j: nat)
    requires 0 < j <= |txns|
    ensures Rooms(txns[..j]) == txns[0].room + Rooms(txns[1..][..j - 1])
  {
    RoomsFirst(txns[..j]);
    assert txns[..j][1..] == txns[1..][..j - 1];
  }

  lemma StoreGoesOn(db: Db, logs: seq<Log>, txns: seq<Txn>)
    requires txns != [] && txns[0].room < |logs| && txns[0].commits && txns[0].limit.TooBig?
    ensures StoreRun(db, logs, txns)
         == StoreRun(PutAll(db, logs[..txns[0].room]), logs[txns[0].room..], txns[1..])
  {}

  lemma PutOn(db: Db, logs: seq<Log>, r: nat, m: nat)
    requires r + m <= |logs|
    ensures PutAll(PutAll(db, logs[..r]), logs[r..][..m]) == PutAll(db, logs[..r + m])
  {
    PutAllConcat(db, logs[..r], logs[r..][..m]);
    assert logs[..r] + logs[r..][..m] == logs[..r + m];
  }

  lemma FirstFills(n: nat, txns: seq<Txn>, j: nat, outcome: Outcome)
    requires 0 < j <= |txns| && StoreEndsAt(n, txns, j, outcome)
    ensures txns[0].room < n
  {
    assert txns[..0 + 1] == [txns[0]] && [txns[0]][..0] == [];
    assert Rooms(txns[..0 + 1]) == txns[0].room;
  }

  lemma FillsPrefix(n: nat, txns: seq<Txn>, j: nat)
    requires j <= |txns| && Fills(n, txns, j)
    ensures Fills(n, txns[..j], j)
  {
    forall i | 0 <= i < j ensures txns[..j][i] == txns[i] && Rooms(txns[..j][..i + 1]) == Rooms(txns[..i + 1]) {
      assert txns[..j][..i + 1] == txns[..i + 1];
    }
  }

  /** A failed StoreLogs leaves exactly what it had left, still running, before the failing one. */
  lemma FailedStoreLeaves(db: Db, logs: seq<Log>, txns: seq<Txn>) returns (j: nat)
    requires StoreRun(db, logs, txns).0.Failed?
    ensures j < |txns| && StoreRun(db, logs, txns[..j]) == (Running, StoreRun(db, logs, txns).1)
  {
    StoreOutcomeIff(db, logs, txns, Failed);
    j :| 0 <= j <= |txns| && StoreEndsAt(|logs|, txns, j, Failed);
    StoreLeaves(db, logs, txns, j, Failed);
    FillsPrefix(|logs|, txns, j);
    assert StoreEndsAt(|logs|, txns[..j], j, Running);
    StoreOutcomeIff(db, logs, txns[..j], Running);
    StoreLeaves(db, logs, txns[..j], j, Running);
    assert txns[..j][..j] == txns[..j];
  }

  /** An entry put into the map is found there unless a later one of the batch replaces it. */
  lemma {:induction false} PutLogsAt(m: map<uint64, Log>, logs: seq<Log>, i: uint64)
    ensures i in PutLogs(m, logs) <==> i in m || exists j :: 0 <= j < |logs| && logs[j].index == i
    ensures forall j | 0 <= j < |logs| && logs[j].index == i && (forall k | j < k < |logs| :: logs[k].index != i) ::
              PutLogs(m, logs)[i] == logs[j]
    ensures i in m && (forall j | 0 <= j < |logs| :: logs[j].index != i) ==> PutLogs(m, logs)[i] == m[i]
  {
    if logs != [] {
      PutLogsAt(m, logs[..|logs| - 1], i);
      assert forall j | 0 <= j < |logs| - 1 :: logs[..|logs| - 1][j] == logs[j];
    }
  }

  /** What GetUint64 makes of a stored value: it panics on fewer than eight bytes, and otherwise reads
      the number whose bytes are the first eight. */
  lemma NumberReadIff(db: Db, name: Key, value: seq<byte>, u: uint64)
    requires WellFormed(db) && StableKey(name) in db && db[StableKey(name)] == Raw(value)
    ensures Perform(db, GetUint64(name)).0.Panic? <==> |value| < 8
    ensures Perform(db, GetUint64(name)).0 == Number(u) <==> |value| >= 8 && value[..8] == Uint64ToBytes(u)
  {
    if |value| >= 8 { Uint64RoundTrip(u, value[..8]); }
  }
}
