/** The store as a whole: every run of its operations on one byte-keyed database is a run of the
    same operations on a map of log entries and a map of stable values. */
module StoreRefinement {
  import opened Bytes
  import opened Badger
  import opened LogStore
  import opened LogIndex
  import opened DeleteRangeProofs
  import opened DeleteSafety

  /** The calls of the store, each with the transactions the database grants it. */
  datatype Op =
    | FirstIndex
    | LastIndex
    | GetLog(index: uint64)
    | StoreLog(log: Log, txn: Txn)
    | StoreLogs(logs: seq<Log>, txns: seq<Txn>)
    | DeleteRange(min: uint64, max: uint64, txns: seq<Txn>)
    | Set(name: Key, value: seq<byte>, txn: Txn)
    | SetUint64(name: Key, number: uint64, txn: Txn)
    | Get(name: Key)
    | GetUint64(name: Key)

  /** Their answers. Reading a number out of fewer than eight bytes panics. */
  datatype Response =
    | Ended(outcome: Outcome)
    | Index(value: uint64)
    | Found(log: Log)
    | LogNotFound
    | Value(bytes: seq<byte>)
    | Number(number: uint64)
    | KeyNotFound
    | Panic

  /** One write in a transaction of its own. */
  function WriteOne(db: Db, k: Key, v: LogStore.Value, t: Txn): (Response, Db) {
    if t.room >= 1 && t.commits then (Ended(Done), db[k := v]) else (Ended(Failed), db)
  }

  function NumberIn(bytes: seq<byte>): Response {
    if |bytes| < 8 then Panic else Number(BytesToUint64(bytes[..8]))
  }

  ghost function Perform(db: Db, op: Op): (Response, Db)
    requires WellFormed(db)
  {
    match op
    case FirstIndex => (Index(FirstIndexOf(db)), db)
    case LastIndex => (Index(LastIndexOf(db)), db)
    case GetLog(i) =>
      LogKeyIndex(i);
      (if LogKey(i) in db then Found(db[LogKey(i)].log) else LogNotFound, db)
    case StoreLog(log, t) => WriteOne(db, LogKey(log.index), Entry(log), t)
    case StoreLogs(logs, txns) => var (outcome, db') := StoreRun(db, logs, txns); (Ended(outcome), db')
    case DeleteRange(min, max, txns) => var (outcome, db') := DeleteRun(db, min, max, txns); (Ended(outcome), db')
    case Set(name, value, t) => WriteOne(db, StableKey(name), Raw(value), t)
    case SetUint64(name, u, t) => WriteOne(db, StableKey(name), Raw(Uint64ToBytes(u)), t)
    case Get(name) =>
      (if StableKey(name) in db then Value(db[StableKey(name)].bytes) else KeyNotFound, db)
    case GetUint64(name) =>
      (if StableKey(name) in db then NumberIn(db[StableKey(name)].bytes) else KeyNotFound, db)
  }

  // ---- the two maps ----

  datatype Abs = Abs(log: map<uint64, Log>, stable: map<Key, seq<byte>>)

  ghost function Names(db: Db): set<Key> {
    set k | k in db && IsStableKey(k) :: k[1..]
  }

  lemma NameStored(db: Db, name: Key)
    ensures name in Names(db) <==> StableKey(name) in db
  {
    assert StableKey(name)[1..] == name;
    if name in Names(db) {
      var k :| k in db && IsStableKey(k) && k[1..] == name;
      assert k == StableKey(name);
    }
  }

  ghost function LogMap(db: Db): (m: map<uint64, Log>)
    requires WellFormed(db)
    ensures m.Keys == Indices(db)
    ensures forall i | i in m :: LogKey(i) in db && db[LogKey(i)] == Entry(m[i])
  {
    assert forall i | i in Indices(db) :: LogKey(i) in db && db[LogKey(i)].Entry? by {
      forall i | i in Indices(db) ensures LogKey(i) in db && db[LogKey(i)].Entry? {
        IndexStored(db, i);
        LogKeyIndex(i);
      }
    }
    map i | i in Indices(db) :: db[LogKey(i)].log
  }

  ghost function StableMap(db: Db): (m: map<Key, seq<byte>>)
    requires WellFormed(db)
    ensures m.Keys == Names(db)
    ensures forall name | name in m :: StableKey(name) in db && db[StableKey(name)] == Raw(m[name])
  {
    assert forall name | name in Names(db) :: StableKey(name) in db && db[StableKey(name)].Raw? by {
      forall name | name in Names(db) ensures StableKey(name) in db && db[StableKey(name)].Raw? {
        NameStored(db, name);
      }
    }
    map name | name in Names(db) :: db[StableKey(name)].bytes
  }

  ghost function Abstract(db: Db): Abs
    requires WellFormed(db)
  {
    Abs(LogMap(db), StableMap(db))
  }

  /** The entries put into the map one by one. */
  function PutLogs(m: map<uint64, Log>, logs: seq<Log>): map<uint64, Log> {
    if logs == [] then m
    else
      var last := logs[|logs| - 1];
      PutLogs(m, logs[..|logs| - 1])[last.index := last]
  }

  function DropRange(m: map<uint64, Log>, lo: int, hi: int): map<uint64, Log> {
    map i | i in m && !(lo <= i < hi) :: m[i]
  }

  /** What an operation may answer and leave behind, on the two maps. A failed or unfinished
      StoreLogs has stored a prefix of its batch; a failed or unfinished DeleteRange has removed
      the indices of its range below some cut. */
  ghost predicate AbsStep(a: Abs, op: Op, r: Response, a': Abs) {
    match op
    case FirstIndex => a' == a && r.Index? && IsFirst(r.value, a.log.Keys)
    case LastIndex => a' == a && r.Index? && IsLast(r.value, a.log.Keys)
    case GetLog(i) => a' == a && r == if i in a.log then Found(a.log[i]) else LogNotFound
    case StoreLog(log, _) =>
      r.Ended? && a' == if r.outcome.Done? then a.(log := a.log[log.index := log]) else a
    case StoreLogs(logs, _) =>
      r.Ended? && exists n :: StoredPrefix(a, logs, n, r.outcome, a')
    case DeleteRange(min, max, _) =>
      r.Ended? && exists cut :: RemovedBelow(a, min, max, cut, r.outcome, a')
    case Set(name, value, _) =>
      r.Ended? && a' == if r.outcome.Done? then a.(stable := a.stable[name := value]) else a
    case SetUint64(name, u, _) =>
      r.Ended? && a' == if r.outcome.Done? then a.(stable := a.stable[name := Uint64ToBytes(u)]) else a
    case Get(name) => a' == a && r == if name in a.stable then Value(a.stable[name]) else KeyNotFound
    case GetUint64(name) =>
      a' == a && r == if name in a.stable then NumberIn(a.stable[name]) else KeyNotFound
  }

  ghost predicate StoredPrefix(a: Abs, logs: seq<Log>, n: int, outcome: Outcome, a': Abs) {
    && 0 <= n <= |logs|
    && a' == a.(log := PutLogs(a.log, logs[..n]))
    && (outcome.Done? ==> n == |logs|)
  }

  ghost predicate RemovedBelow(a: Abs, min: uint64, max: uint64, cut: int, outcome: Outcome, a': Abs) {
    && a' == a.(log := DropRange(a.log, min, cut))
    && if outcome.Done? then cut == max + 1 else cut == min || min <= cut <= max + 1
  }

  // ---- single steps ----

  lemma LogMapIs(db: Db, m: map<uint64, Log>)
    requires WellFormed(db)
    requires forall i: uint64 :: i in m <==> LogKey(i) in db
    requires forall i | i in m :: db[LogKey(i)] == Entry(m[i])
    ensures LogMap(db) == m
  {
    forall i: uint64 ensures i in LogMap(db) <==> i in m { IndexStored(db, i); }
  }

  lemma StableMapIs(db: Db, m: map<Key, seq<byte>>)
    requires WellFormed(db)
    requires forall name :: name in m <==> StableKey(name) in db
    requires forall name | name in m :: db[StableKey(name)] == Raw(m[name])
    ensures StableMap(db) == m
  {
    forall name ensures name in StableMap(db) <==> name in m { NameStored(db, name); }
  }

  lemma MapsAre(db: Db)
    requires WellFormed(db)
    ensures forall i: uint64 :: i in LogMap(db) <==> LogKey(i) in db
    ensures forall name :: name in StableMap(db) <==> StableKey(name) in db
  {
    forall i: uint64 ensures i in LogMap(db) <==> LogKey(i) in db { IndexStored(db, i); }
    forall name ensures name in StableMap(db) <==> StableKey(name) in db { NameStored(db, name); }
  }

  lemma PutFits(db: Db, k: Key, v: LogStore.Value)
    requires WellFormed(db) && Fits(k, v)
    ensures WellFormed(db[k := v])
  {}

  /** A log entry written under its key is an entry put into the map. */
  lemma PutOne(db: Db, log: Log)
    requires WellFormed(db)
    ensures WellFormed(db[LogKey(log.index) := Entry(log)])
    ensures Abstract(db[LogKey(log.index) := Entry(log)])
         == Abstract(db).(log := LogMap(db)[log.index := log])
  {
    LogKeyIndex(log.index);
    PutFits(db, LogKey(log.index), Entry(log));
    MapsAre(db);
    var db' := db[LogKey(log.index) := Entry(log)];
    forall i: uint64 ensures LogKey(i) == LogKey(log.index) ==> i == log.index { LogKeyIndex(i); }
    LogMapIs(db', LogMap(db)[log.index := log]);
    StableMapIs(db', StableMap(db));
  }

  lemma SetOne(db: Db, name: Key, value: seq<byte>)
    requires WellFormed(db)
    ensures WellFormed(db[StableKey(name) := Raw(value)])
    ensures Abstract(db[StableKey(name) := Raw(value)])
         == Abstract(db).(stable := StableMap(db)[name := value])
  {
    MapsAre(db);
    var db' := db[StableKey(name) := Raw(value)];
    forall n ensures StableKey(n) == StableKey(name) ==> n == name { assert StableKey(n)[1..] == n; }
    StableMapIs(db', StableMap(db)[name := value]);
    LogMapIs(db', LogMap(db));
  }

  lemma {:induction false} PutMany(db: Db, logs: seq<Log>)
    requires WellFormed(db)
    ensures WellFormed(PutAll(db, logs))
    ensures Abstract(PutAll(db, logs)) == Abstract(db).(log := PutLogs(Abstract(db).log, logs))
  {
    if logs != [] {
      PutMany(db, logs[..|logs| - 1]);
      PutOne(PutAll(db, logs[..|logs| - 1]), logs[|logs| - 1]);
    }
  }

  lemma {:induction false} PutAllConcat(db: Db, a: seq<Log>, b: seq<Log>)
    ensures PutAll(PutAll(db, a), b) == PutAll(db, a + b)
  {
    if b == [] {
      assert a + b == a;
    } else {
      PutAllConcat(db, a, b[..|b| - 1]);
      assert (a + b)[..|a + b| - 1] == a + b[..|b| - 1];
    }
  }

  /** However its transactions are split, StoreLogs leaves the entries of a prefix of the batch
      stored one by one, and of the whole batch when it succeeds. */
  lemma {:induction false} StorePrefix(db: Db, logs: seq<Log>, txns: seq<Txn>) returns (n: nat)
    ensures n <= |logs| && StoreRun(db, logs, txns).1 == PutAll(db, logs[..n])
    ensures StoreRun(db, logs, txns).0.Done? ==> n == |logs|
    decreases |txns|
  {
    n := 0;
    if txns != [] {
      var t := txns[0];
      if |logs| <= t.room {
        if t.commits { n := |logs|; }
        assert logs[..|logs|] == logs;
      } else if t.limit.TooBig? && t.commits {
        var m := StorePrefix(PutAll(db, logs[..t.room]), logs[t.room..], txns[1..]);
        n := t.room + m;
        PutAllConcat(db, logs[..t.room], logs[t.room..][..m]);
        assert logs[..t.room] + logs[t.room..][..m] == logs[..n];
      }
    }
  }

  /** StoreLogs ends, if the first write of a fresh transaction always fits, after at most one
      transaction more than there are entries. */
  lemma {:induction false} StoreFinishes(db: Db, logs: seq<Log>, txns: seq<Txn>)
    requires Progressing(txns) && |txns| > |logs|
    ensures StoreRun(db, logs, txns).0.Done?
    decreases |txns|
  {
    var t := txns[0];
    assert t in txns;
    assert forall u | u in txns[1..] :: u in txns;
    if |logs| > t.room {
      StoreFinishes(PutAll(db, logs[..t.room]), logs[t.room..], txns[1..]);
    }
  }

  /** Removing the keys of some indices removes those indices from the map. */
  lemma RemoveLogs(db: Db, lo: int, hi: int)
    requires WellFormed(db)
    ensures WellFormed(db - LogsIn(db, lo, hi))
    ensures Abstract(db - LogsIn(db, lo, hi)) == Abstract(db).(log := DropRange(LogMap(db), lo, hi))
  {
    MapsAre(db);
    var db' := db - LogsIn(db, lo, hi);
    forall i: uint64 ensures LogKey(i) in db' <==> LogKey(i) in db && !(lo <= i < hi) { LogKeyIndex(i); }
    LogMapIs(db', DropRange(LogMap(db), lo, hi));
    StableMapIs(db', StableMap(db));
  }

  /** The conditions: log indices within reach of LastIndex, and for a DeleteRange that nothing
      but the range can be hit, not even by starting over from a stable key. */
  ghost predicate Guard(db: Db, op: Op) {
    match op
    case StoreLog(log, _) => log.index < LAST_LIMIT
    case StoreLogs(logs, _) => forall log | log in logs :: log.index < LAST_LIMIT
    case DeleteRange(min, max, txns) => Sound(db, min, max, txns)
    case _ => true
  }

  ghost predicate AllVisible(indices: set<uint64>) {
    forall i | i in indices :: i < LAST_LIMIT
  }

  lemma {:induction false} PutLogsVisible(m: map<uint64, Log>, logs: seq<Log>)
    requires AllVisible(m.Keys) && forall log | log in logs :: log.index < LAST_LIMIT
    ensures AllVisible(PutLogs(m, logs).Keys)
  {
    if logs != [] {
      assert logs[|logs| - 1] in logs;
      PutLogsVisible(m, logs[..|logs| - 1]);
    }
  }

  ghost predicate Good(db: Db) {
    WellFormed(db) && AllVisible(LogMap(db).Keys)
  }

  /** Performing the operation on the database is performing it on the two maps: the answer and
      the two maps afterwards are ones that `AbsStep` allows. */
  ghost predicate Refines(db: Db, op: Op)
    requires WellFormed(db)
  {
    var (r, db') := Perform(db, op);
    Good(db') && AbsStep(Abstract(db), op, r, Abstract(db'))
  }

  /** On every store, safe or not, DeleteRange leaves a part of what it found. */
  lemma {:induction false} DeleteLeavesPart(db: Db, min: uint64, max: uint64, txns: seq<Txn>)
    ensures forall k | k in DeleteRun(db, min, max, txns).1 :: k in db && DeleteRun(db, min, max, txns).1[k] == db[k]
    decreases |txns|
  {
    if txns != [] && DeleteTxn(db, min, max, txns[0]).Restart? {
      var step := DeleteTxn(db, min, max, txns[0]);
      DeleteLeavesPart(step.db, step.min, max, txns[1..]);
    }
  }

  lemma DeleteKeepsWellFormed(db: Db, min: uint64, max: uint64, txns: seq<Txn>)
    requires WellFormed(db)
    ensures WellFormed(DeleteRun(db, min, max, txns).1)
  {
    DeleteLeavesPart(db, min, max, txns);
  }

  lemma StoreMaps(db: Db, logs: seq<Log>, txns: seq<Txn>) returns (n: nat)
    requires WellFormed(db)
    ensures WellFormed(StoreRun(db, logs, txns).1)
    ensures StoredPrefix(Abstract(db), logs, n, StoreRun(db, logs, txns).0, Abstract(StoreRun(db, logs, txns).1))
  {
    n := StorePrefix(db, logs, txns);
    PutMany(db, logs[..n]);
  }

  lemma DeleteMaps(db: Db, min: uint64, max: uint64, txns: seq<Txn>) returns (cut: int)
    requires WellFormed(db) && Guard(db, DeleteRange(min, max, txns))
    ensures WellFormed(DeleteRun(db, min, max, txns).1)
    ensures RemovedBelow(Abstract(db), min, max, cut, DeleteRun(db, min, max, txns).0,
                         Abstract(DeleteRun(db, min, max, txns).1))
  {
    cut := SoundDelete(db, min, max, txns);
    RemoveLogs(db, min, cut);
  }

  lemma DeleteStep(db: Db, min: uint64, max: uint64, txns: seq<Txn>)
    requires Good(db) && Guard(db, DeleteRange(min, max, txns))
    ensures Refines(db, DeleteRange(min, max, txns))
  {
    var _ := DeleteMaps(db, min, max, txns);
  }

  lemma StoreStep(db: Db, logs: seq<Log>, txns: seq<Txn>)
    requires Good(db) && Guard(db, StoreLogs(logs, txns))
    ensures Refines(db, StoreLogs(logs, txns))
  {
    var n := StoreMaps(db, logs, txns);
    PutLogsVisible(LogMap(db), logs[..n]);
  }

  lemma VisiblePut(m: map<uint64, Log>, log: Log)
    requires AllVisible(m.Keys) && log.index < LAST_LIMIT
    ensures AllVisible(m[log.index := log].Keys)
  {}

  lemma PutOneGood(db: Db, log: Log)
    requires Good(db) && log.index < LAST_LIMIT
    ensures Good(db[LogKey(log.index) := Entry(log)])
    ensures Abstract(db[LogKey(log.index) := Entry(log)])
         == Abstract(db).(log := LogMap(db)[log.index := log])
  {
    VisiblePut(LogMap(db), log);
    PutOne(db, log);
  }

  lemma StoreOneStep(db: Db, log: Log, t: Txn)
    requires Good(db) && Guard(db, StoreLog(log, t))
    ensures Refines(db, StoreLog(log, t))
  {
    PutOneGood(db, log);
  }

  lemma SetStep(db: Db, name: Key, value: seq<byte>, t: Txn)
    requires Good(db)
    ensures Refines(db, Set(name, value, t))
  {
    SetOne(db, name, value);
  }

  lemma SetNumberStep(db: Db, name: Key, u: uint64, t: Txn)
    requires Good(db)
    ensures Refines(db, SetUint64(name, u, t))
  {
    SetOne(db, name, Uint64ToBytes(u));
  }

  lemma ReadStep(db: Db, op: Op)
    requires Good(db) && (op.FirstIndex? || op.LastIndex? || op.GetLog? || op.Get? || op.GetUint64?)
    ensures Refines(db, op)
  {
    MapsAre(db);
    FirstIsLeast(db);
    LastExactIff(db);
  }

  /** Every single operation of the database is one of the two maps. */
  lemma StepRefines(db: Db, op: Op)
    requires Good(db) && Guard(db, op)
    ensures Refines(db, op)
  {
    match op
    case StoreLogs(logs, txns) => StoreStep(db, logs, txns);
    case DeleteRange(min, max, txns) => DeleteStep(db, min, max, txns);
    case StoreLog(log, t) => StoreOneStep(db, log, t);
    case Set(name, value, t) => SetStep(db, name, value, t);
    case SetUint64(name, u, t) => SetNumberStep(db, name, u, t);
    case _ => ReadStep(db, op);
  }

  // ---- runs ----

  /** One guarded operation of the database. */
  ghost predicate Next(db: Db, op: Op, r: Response, db': Db) {
    WellFormed(db) && Guard(db, op) && r == Perform(db, op).0 && db' == Perform(db, op).1
  }

  /** The same operation, with the same answer, of the two maps. */
  ghost predicate AbsNext(db: Db, op: Op, r: Response, db': Db) {
    Good(db) && Good(db') && AbsStep(Abstract(db), op, r, Abstract(db'))
  }

  lemma NextRefines(db: Db, op: Op, r: Response, db': Db)
    requires Good(db) && Next(db, op, r, db')
    ensures AbsNext(db, op, r, db')
  {
    StepRefines(db, op);
  }

  /** The first `n` operations take the database through `dbs` with the answers `rs`. */
  ghost predicate IsRun(dbs: seq<Db>, ops: seq<Op>, rs: seq<Response>, n: nat)
    requires n <= |ops| == |rs| < |dbs|
  {
    n > 0 ==> IsRun(dbs, ops, rs, n - 1) && Next(dbs[n - 1], ops[n - 1], rs[n - 1], dbs[n])
  }

  /** The same operations take the two maps through the abstractions of `dbs` with the same answers. */
  ghost predicate IsAbsRun(dbs: seq<Db>, ops: seq<Op>, rs: seq<Response>, n: nat)
    requires n <= |ops| == |rs| < |dbs|
  {
    n > 0 ==> IsAbsRun(dbs, ops, rs, n - 1) && AbsNext(dbs[n - 1], ops[n - 1], rs[n - 1], dbs[n])
  }

  /** Every run of guarded operations on the byte-keyed database, ended and failed calls alike,
      is step by step a run with the same answers on two independent maps. */
  lemma {:induction false} RunRefines(dbs: seq<Db>, ops: seq<Op>, rs: seq<Response>, n: nat)
    requires n <= |ops| == |rs| < |dbs|
    requires Good(dbs[0]) && IsRun(dbs, ops, rs, n)
    ensures Good(dbs[n]) && IsAbsRun(dbs, ops, rs, n)
  {
    if n > 0 {
      RunRefines(dbs, ops, rs, n - 1);
      NextRefines(dbs[n - 1], ops[n - 1], rs[n - 1], dbs[n]);
    }
  }

  /** A number stored under a name is read back. */
  lemma NumberRoundTrip(db: Db, name: Key, u: uint64, t: Txn)
    requires WellFormed(db) && t.room >= 1 && t.commits
    ensures var (r, db') := Perform(db, SetUint64(name, u, t));
            r == Ended(Done) && WellFormed(db') && Perform(db', GetUint64(name)).0 == Number(u)
  {
    SetOne(db, name, Uint64ToBytes(u));
    Uint64RoundTrip(u, Uint64ToBytes(u));
    assert Uint64ToBytes(u)[..8] == Uint64ToBytes(u);
  }
}
