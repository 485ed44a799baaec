/** When DeleteRange removes exactly the indices asked for however its work is split, also where a
    transaction fills up on a stable key and the call starts over from what that key reads as. */
module DeleteSafety {
  import opened Bytes
  import opened Badger
  import opened LogStore
  import opened DeleteRangeProofs

  /** A fresh transaction takes its first write. */
  ghost predicate Roomy(txns: seq<Txn>) {
    forall t | t in txns :: t.room >= 1
  }

  /** Starting over from what `k` reads as would reach a stored index below the range. */
  ghost predicate Exposed(db: Db, min: uint64, max: uint64, k: Key) {
    exists l :: l in db && IsLogKey(l) && Reading(k) <= IndexOf(l) < min && IndexOf(l) <= max
  }

  ghost predicate After(db: Db, min: uint64, max: uint64, k: Key) {
    exists j :: j in HitSet(db, min, max) && Less(j, k)
  }

  /** No stable key on which a transaction can fill up, which is not the first key scanned, leads back
      to a stored index below the range. */
  ghost predicate NoneExposed(db: Db, min: uint64, max: uint64) {
    forall k | k in StableHits(db, min, max) && After(db, min, max, k) :: !Exposed(db, min, max, k)
  }

  /** The store is harmless, and restarts on stable keys do not lead below the range. */
  ghost predicate Safe(db: Db, min: uint64, max: uint64) {
    Harmless(db, min, max) && (Blocked(db, min, max) || NoneExposed(db, min, max))
  }

  /** What a call has done: removed the indices of [min, cut), all of the range if it has ended. */
  ghost predicate Exactly(db: Db, min: uint64, max: uint64, cut: int, outcome: Outcome, db': Db) {
    && db' == db - LogsIn(db, min, cut)
    && if outcome.Done? then cut == max + 1 else cut == min || min <= cut <= max + 1
  }

  // ---- once the range is empty ----

  /** Nothing is left to remove, whatever stable key the call starts over from. */
  ghost predicate Spent(db: Db, c: uint64, max: uint64) {
    && WellFormed(db) && c <= max
    && LogsIn(db, c, max + 1) == {}
    && Strays(db, c, max) !! db.Keys
    && forall k | k in StableHits(db, c, max) && After(db, c, max, k) :: LogsIn(db, Reading(k), max + 1) == {}
  }

  lemma SpentHits(db: Db, c: uint64, max: uint64, hits: seq<Key>, n: nat)
    requires Spent(db, c, max) && hits == Hits(db, c, max) && n <= |hits|
    ensures db - Buffers(hits[..n]) == db
    ensures forall k | k in hits :: k in StableHits(db, c, max) && Reading(k) <= max
  {
    HitsAre(db, c, max);
    forall k | k in hits ensures k in StableHits(db, c, max) && Reading(k) <= max {
      assert k in HitSet(db, c, max);
      LessIrreflexive(k);
    }
    forall k | k in hits[..n] ensures Buffer(k) in Strays(db, c, max) {
      assert k in hits;
    }
  }

  /** The stable keys scanned do not depend on where in an empty range the scan starts. */
  lemma SpentFrom(db: Db, c: uint64, max: uint64, c': uint64)
    requires Spent(db, c, max) && !Blocked(db, c, max) && c' <= max && LogsIn(db, c', max + 1) == {}
    ensures Spent(db, c', max)
  {
    assert !Blocked(db, c', max);
    assert StableHits(db, c', max) == StableHits(db, c, max);
    HitsAre(db, c, max);
    HitsAre(db, c', max);
    assert HitSet(db, c', max) == HitSet(db, c, max);
  }

  lemma SpentRestart(db: Db, c: uint64, max: uint64, hits: seq<Key>, r: nat)
    requires Spent(db, c, max) && hits == Hits(db, c, max) && 1 <= r < |hits|
    ensures db - Buffers(hits[..r]) == db && Spent(db, Reading(hits[r]), max)
  {
    SpentHits(db, c, max, hits, r);
    assert hits[r] in hits && hits[0] in hits && Less(hits[0], hits[r]);
    assert hits[0] in HitSet(db, c, max);
    assert After(db, c, max, hits[r]);
    SpentFrom(db, c, max, Reading(hits[r]));
  }

  lemma SpentStep(db: Db, c: uint64, max: uint64, t: Txn)
    requires Spent(db, c, max) && t.room >= 1
    ensures var step := DeleteTxn(db, c, max, t);
            step.db == db && (step.Restart? ==> Spent(db, step.min, max))
  {
    var hits := Hits(db, c, max);
    if |hits| > t.room {
      SpentRestart(db, c, max, hits, t.room);
    } else {
      SpentHits(db, c, max, hits, |hits|);
      assert hits[..|hits|] == hits;
    }
  }

  lemma {:induction false} SpentRun(db: Db, c: uint64, max: uint64, txns: seq<Txn>)
    requires Spent(db, c, max) && Roomy(txns)
    ensures DeleteRun(db, c, max, txns).1 == db
    decreases |txns|
  {
    if txns != [] {
      assert txns[0] in txns;
      assert forall t | t in txns[1..] :: t in txns;
      SpentStep(db, c, max, txns[0]);
      var step := DeleteTxn(db, c, max, txns[0]);
      if step.Restart? { SpentRun(db, step.min, max, txns[1..]); }
    }
  }

  // ---- up to then ----

  /** On a safe store, removing the indices below `c` leaves it safe from `c` on. */
  lemma SafeAfterPrefix(db: Db, min: uint64, max: uint64, c: uint64)
    requires WellFormed(db) && Safe(db, min, max) && min <= c <= max
    ensures Safe(db - LogsIn(db, min, c), c, max)
  {
    var db1 := db - LogsIn(db, min, c);
    RemovePrefix(db, min, max, c);
    LogKeyIndex(0);
    if !Blocked(db, min, max) {
      HitsAre(db, min, max);
      HitsAre(db1, c, max);
      assert HitSet(db1, c, max) <= HitSet(db, min, max);
      forall k | k in StableHits(db1, c, max) && After(db1, c, max, k) ensures !Exposed(db1, c, max, k) {
        assert After(db, min, max, k);
      }
    }
  }

  /** A transaction that fills up on a stable key has emptied the range. */
  lemma StableRestart(db: Db, min: uint64, max: uint64, t: Txn)
    requires WellFormed(db) && Safe(db, min, max) && t.room >= 1
    requires DeleteTxn(db, min, max, t).Restart? && !FullOnLog(db, min, max, t)
    ensures var step := DeleteTxn(db, min, max, t);
            step.db == db - LogsIn(db, min, max + 1) && Spent(step.db, step.min, max)
  {
    var hits := Hits(db, min, max);
    var k := hits[t.room];
    StableHit(db, min, max, hits, t.room);
    BeforeStable(db, min, max, hits, t.room);
    RangeEmptied(db, min, max, k);
  }

  lemma StableHit(db: Db, min: uint64, max: uint64, hits: seq<Key>, r: nat)
    requires WellFormed(db) && hits == Hits(db, min, max) && 1 <= r < |hits| && !IsLogKey(hits[r])
    ensures hits[r] in StableHits(db, min, max) && Reading(hits[r]) <= max && After(db, min, max, hits[r])
  {
    HitsAre(db, min, max);
    assert hits[r] in HitSet(db, min, max) && hits[0] in HitSet(db, min, max) && Less(hits[0], hits[r]);
    LessIrreflexive(hits[r]);
  }

  /** In ascending order, the keys before a stable key take in all the log keys. */
  lemma PrefixBuffers(keys: seq<Key>, logs: set<Key>, others: set<Key>, r: nat)
    requires Ascending(keys) && (forall k :: k in keys <==> k in logs + others)
    requires (forall k | k in logs :: IsLogKey(k)) && r < |keys| && IsStableKey(keys[r])
    ensures logs <= Buffers(keys[..r]) <= logs + set k | k in others :: Buffer(k)
  {
    forall l | l in logs ensures l in Buffers(keys[..r]) {
      LogKeyReading(l);
      LogBeforeStable(l, keys[r]);
      assert l in keys;
      var i :| 0 <= i < |keys| && keys[i] == l;
      assert i < r;
      assert l in keys[..r];
    }
    forall k | k in keys[..r] ensures Buffer(k) in logs + set k | k in others :: Buffer(k) {
      assert k in keys;
      if k in logs { LogKeyReading(k); }
    }
  }

  /** The keys scanned before a stable key take in the whole range, and remove nothing else. */
  lemma BeforeStable(db: Db, min: uint64, max: uint64, hits: seq<Key>, r: nat)
    requires WellFormed(db) && Harmless(db, min, max) && hits == Hits(db, min, max)
    requires r < |hits| && hits[r] in StableHits(db, min, max)
    ensures db - Buffers(hits[..r]) == db - LogsIn(db, min, max + 1)
  {
    HitsAre(db, min, max);
    PrefixBuffers(hits, LogsIn(db, min, max + 1), StableHits(db, min, max), r);
    HarmlessStrays(db, min, max);
    SameMinus(db, Buffers(hits[..r]), LogsIn(db, min, max + 1), Strays(db, min, max));
  }

  lemma SameMinus(db: Db, gone: set<Key>, logs: set<Key>, strays: set<Key>)
    requires logs <= gone <= logs + strays && forall b | b in strays && b in db :: b in logs
    ensures db - gone == db - logs
  {}

  /** With the range emptied, a safe store is spent from wherever `k` leads back to. */
  lemma RangeEmptied(db: Db, min: uint64, max: uint64, k: Key)
    requires WellFormed(db) && Safe(db, min, max) && k in StableHits(db, min, max) && After(db, min, max, k)
    requires Reading(k) <= max
    ensures Spent(db - LogsIn(db, min, max + 1), Reading(k), max)
  {
    var db1, c := db - LogsIn(db, min, max + 1), Reading(k);
    HarmlessStrays(db, min, max);
    assert LogsIn(db1, c, max + 1) == {};
    assert forall x | x in db1 :: x in db && db1[x] == db[x];
    if !Blocked(db1, c, max) {
      assert StableHits(db1, c, max) == StableHits(db, min, max);
      HitsAre(db, min, max);
      HitsAre(db1, c, max);
      forall x | x in StableHits(db1, c, max) && After(db1, c, max, x)
        ensures LogsIn(db1, Reading(x), max + 1) == {}
      {
        assert After(db, min, max, x);
      }
    }
  }

  /** On a safe store, with transactions that take their first write: an ended call has removed exactly
      the stored indices in [min, max], any other call exactly those below some cut. */
  lemma {:induction false} SafeDelete(db: Db, min: uint64, max: uint64, txns: seq<Txn>) returns (cut: int)
    requires WellFormed(db) && Safe(db, min, max) && Roomy(txns)
    ensures var (outcome, db') := DeleteRun(db, min, max, txns); Exactly(db, min, max, cut, outcome, db')
    decreases |txns|
  {
    cut := min;
    if txns == [] {
      assert db - LogsIn(db, min, min) == db;
    } else {
      var t := txns[0];
      assert t in txns;
      assert Roomy(txns[1..]) by { assert forall u | u in txns[1..] :: u in txns; }
      var step := DeleteTxn(db, min, max, t);
      var (outcome, db') := DeleteRun(db, min, max, txns);
      if step.Stop? {
        assert (outcome, db') == (step.outcome, step.db);
        cut := SafeStop(db, min, max, t);
      } else if FullOnLog(db, min, max, t) {
        LogRestart(db, min, max, t);
        assert (outcome, db') == DeleteRun(step.db, step.min, max, txns[1..]);
        cut := SafeDelete(step.db, step.min, max, txns[1..]);
        ExactlyAfterPrefix(db, min, max, step.min, cut, outcome, db');
      } else {
        assert (outcome, db') == DeleteRun(step.db, step.min, max, txns[1..]);
        cut := AfterStable(db, min, max, t, txns[1..]);
      }
      assert Exactly(db, min, max, cut, outcome, db');
    }
  }

  lemma AfterStable(db: Db, min: uint64, max: uint64, t: Txn, txns: seq<Txn>) returns (cut: int)
    requires WellFormed(db) && Safe(db, min, max) && t.room >= 1 && Roomy(txns)
    requires DeleteTxn(db, min, max, t).Restart? && !FullOnLog(db, min, max, t)
    ensures var step := DeleteTxn(db, min, max, t);
            var (outcome, db') := DeleteRun(step.db, step.min, max, txns);
            Exactly(db, min, max, cut, outcome, db')
  {
    var step := DeleteTxn(db, min, max, t);
    StableRestart(db, min, max, t);
    SpentRun(step.db, step.min, max, txns);
    cut := if min <= max || DeleteRun(step.db, step.min, max, txns).0.Done? then max + 1 else min;
    assert LogsIn(db, min, cut) == LogsIn(db, min, max + 1);
  }

  lemma LogRestart(db: Db, min: uint64, max: uint64, t: Txn)
    requires WellFormed(db) && Safe(db, min, max) && DeleteTxn(db, min, max, t).Restart? && FullOnLog(db, min, max, t)
    ensures var step := DeleteTxn(db, min, max, t);
            && min <= step.min <= max && step.db == db - LogsIn(db, min, step.min)
            && WellFormed(step.db) && Safe(step.db, step.min, max)
  {
    RestartStep(db, min, max, t);
    SafeAfterPrefix(db, min, max, DeleteTxn(db, min, max, t).min);
  }

  lemma SafeStop(db: Db, min: uint64, max: uint64, t: Txn) returns (cut: int)
    requires WellFormed(db) && Harmless(db, min, max) && DeleteTxn(db, min, max, t).Stop?
    ensures var step := DeleteTxn(db, min, max, t); Exactly(db, min, max, cut, step.outcome, step.db)
  {
    StopStep(db, min, max, t);
    HarmlessStrays(db, min, max);
    var logs, strays := LogsIn(db, min, max + 1), Strays(db, min, max);
    SameMinus(db, logs + strays, logs, strays);
    cut := if DeleteTxn(db, min, max, t).outcome.Done? then max + 1 else min;
  }

  lemma ExactlyAfterPrefix(db: Db, min: uint64, max: uint64, c: uint64, cut: int, outcome: Outcome, db': Db)
    requires WellFormed(db) && min <= c <= max
    requires Exactly(db - LogsIn(db, min, c), c, max, cut, outcome, db')
    ensures Exactly(db, min, max, cut, outcome, db')
  {
    RemovePrefix(db, min, max, c);
    MinusMinus(db, LogsIn(db, min, c), LogsIn(db - LogsIn(db, min, c), c, cut));
  }

  // ---- and only then ----

  ghost predicate AlwaysExact(db: Db, min: uint64, max: uint64) {
    forall txns: seq<Txn> | Roomy(txns) && DeleteRun(db, min, max, txns).0.Done? ::
      DeleteRun(db, min, max, txns).1 == db - LogsIn(db, min, max + 1)
  }

  /** A transaction with room for all hits ends the call. */
  lemma OneTxn(db: Db, min: uint64, max: uint64) returns (t: Txn)
    ensures t.room >= 1
    ensures DeleteTxn(db, min, max, t) == Stop(Done, db - Buffers(Hits(db, min, max)))
    ensures DeleteRun(db, min, max, [t]) == (Done, db - Buffers(Hits(db, min, max)))
  {
    t := Txn(|Hits(db, min, max)| + 1, TooBig, true);
    assert [t][0] == t;
  }

  /** A harmful stray is removed by a single transaction. */
  lemma HarmfulRun(db: Db, min: uint64, max: uint64) returns (txns: seq<Txn>)
    requires WellFormed(db) && !Harmless(db, min, max)
    ensures Roomy(txns) && DeleteRun(db, min, max, txns).0.Done?
    ensures DeleteRun(db, min, max, txns).1 != db - LogsIn(db, min, max + 1)
  {
    var t := OneTxn(db, min, max);
    txns := [t];
    assert FullOnLog(db, min, max, txns[0]);
    assert FullOnlyOnLogs(db, min, max, txns);
    DeleteExactIff(db, min, max, txns);
  }

  /** The call starts over once and then ends. */
  lemma TwoTxns(db: Db, min: uint64, max: uint64, t: Txn) returns (txns: seq<Txn>)
    requires t.room >= 1 && DeleteTxn(db, min, max, t).Restart?
    ensures var step := DeleteTxn(db, min, max, t);
            Roomy(txns) && DeleteRun(db, min, max, txns) == (Done, step.db - Buffers(Hits(step.db, step.min, max)))
  {
    var step := DeleteTxn(db, min, max, t);
    var t2 := OneTxn(step.db, step.min, max);
    txns := [t, t2];
    assert txns[0] == t && txns[1..] == [t2];
  }

  lemma FullAt(db: Db, min: uint64, max: uint64, k: Key) returns (t: Txn)
    requires WellFormed(db) && k in StableHits(db, min, max) && After(db, min, max, k)
    ensures t.room >= 1 && DeleteTxn(db, min, max, t).Restart? && DeleteTxn(db, min, max, t).min == Reading(k)
    ensures WellFormed(DeleteTxn(db, min, max, t).db)
  {
    var hits := Hits(db, min, max);
    var r := Position(db, min, max, k, hits);
    t := Txn(r, TooBig, true);
    assert forall x | x in db - Buffers(hits[..r]) :: x in db && (db - Buffers(hits[..r]))[x] == db[x];
  }

  /** Filling up on an exposed key makes the call start over below its range and remove the indices it
      finds there. */
  lemma ExposedRun(db: Db, min: uint64, max: uint64, k: Key) returns (txns: seq<Txn>)
    requires WellFormed(db) && k in StableHits(db, min, max) && After(db, min, max, k) && Exposed(db, min, max, k)
    ensures Roomy(txns) && DeleteRun(db, min, max, txns).0.Done?
    ensures forall l | IsLogKey(l) && Reading(k) <= IndexOf(l) < min && IndexOf(l) <= max ::
              l !in DeleteRun(db, min, max, txns).1
    ensures DeleteRun(db, min, max, txns).1 != db - LogsIn(db, min, max + 1)
  {
    var t := FullAt(db, min, max, k);
    var step := DeleteTxn(db, min, max, t);
    txns := TwoTxns(db, min, max, t);
    forall l | IsLogKey(l) && Reading(k) <= IndexOf(l) < min && IndexOf(l) <= max
      ensures l !in DeleteRun(db, min, max, txns).1
    {
      RemovedByScan(step.db, Reading(k), max, l);
    }
    var l :| l in db && IsLogKey(l) && Reading(k) <= IndexOf(l) < min && IndexOf(l) <= max;
    assert l in db - LogsIn(db, min, max + 1);
  }

  lemma Position(db: Db, min: uint64, max: uint64, k: Key, hits: seq<Key>) returns (r: nat)
    requires WellFormed(db) && k in StableHits(db, min, max) && After(db, min, max, k) && hits == Hits(db, min, max)
    ensures 1 <= r < |hits| && hits[r] == k
  {
    assert k in hits by { HitsAre(db, min, max); }
    var j :| j in HitSet(db, min, max) && Less(j, k);
    r := NotFirst(hits, j, k);
  }

  lemma NotFirst(keys: seq<Key>, j: Key, k: Key) returns (r: nat)
    requires Ascending(keys) && j in keys && k in keys && Less(j, k)
    ensures 1 <= r < |keys| && keys[r] == k
  {
    r :| 0 <= r < |keys| && keys[r] == k;
    var i :| 0 <= i < |keys| && keys[i] == j;
    LessIrreflexive(k);
    LessAsymmetric(j, k);
  }

  lemma RemovedByScan(db: Db, c: uint64, max: uint64, l: Key)
    requires WellFormed(db) && IsLogKey(l) && c <= IndexOf(l) <= max
    ensures l !in db - Buffers(Hits(db, c, max))
  {
    AllHits(db, c, max, Hits(db, c, max));
  }

  /** DeleteRange removes exactly the stored indices in [min, max], in every call that ends and
      however the work is split, if and only if the store is safe. */
  lemma AlwaysExactIff(db: Db, min: uint64, max: uint64)
    requires WellFormed(db)
    ensures AlwaysExact(db, min, max) <==> Safe(db, min, max)
  {
    if Safe(db, min, max) {
      forall txns: seq<Txn> | Roomy(txns) && DeleteRun(db, min, max, txns).0.Done?
        ensures DeleteRun(db, min, max, txns).1 == db - LogsIn(db, min, max + 1)
      {
        var _ := SafeDelete(db, min, max, txns);
      }
    } else if !Harmless(db, min, max) {
      var txns := HarmfulRun(db, min, max);
    } else {
      var k :| k in StableHits(db, min, max) && After(db, min, max, k) && Exposed(db, min, max, k);
      var txns := ExposedRun(db, min, max, k);
    }
  }

  ghost predicate LongNames(db: Db) {
    forall k | k in db && IsStableKey(k) :: |k| > 9
  }

  lemma LongReading(k: Key)
    requires IsStableKey(k) && |k| > 9
    ensures Reading(k) == 0
  {
    ZeroIndex();
    assert Zeros(9)[1..] == Zeros(8);
  }

  lemma LongHit(db: Db, min: uint64, max: uint64, name: Key)
    requires WellFormed(db) && !Blocked(db, min, max) && LogsIn(db, min, max + 1) != {} && LongNames(db)
    requires name in db && IsStableKey(name)
    ensures name in StableHits(db, min, max) && After(db, min, max, name)
  {
    forall j | j in db && IsStableKey(j) ensures Reading(j) == 0 { LongReading(j); }
    HitsAre(db, min, max);
    var l :| l in LogsIn(db, min, max + 1);
    LogBeforeStable(l, name);
    assert l in HitSet(db, min, max);
  }

  lemma LongExposedIff(db: Db, min: uint64, max: uint64, name: Key)
    requires min <= max && IsStableKey(name) && |name| > 9
    ensures Exposed(db, min, max, name) <==> LogsIn(db, 0, min) != {}
  {
    LongReading(name);
    if LogsIn(db, 0, min) != {} {
      var l :| l in LogsIn(db, 0, min);
    }
    if l :| l in db && IsLogKey(l) && 0 <= IndexOf(l) < min && IndexOf(l) <= max {
      assert l in LogsIn(db, 0, min);
    }
  }

  lemma LongSafeIff(db: Db, min: uint64, max: uint64, name: Key)
    requires WellFormed(db) && !Blocked(db, min, max) && LogsIn(db, min, max + 1) != {} && LongNames(db)
    requires name in db && IsStableKey(name)
    ensures Safe(db, min, max) <==> LogsIn(db, 0, min) == {}
  {
    LongHit(db, min, max, name);
    assert min <= max;
    if LogsIn(db, 0, min) != {} {
      LongExposedIff(db, min, max, name);
    } else {
      assert min == 0 || LogKey(0) !in db by { LogKeyIndex(0); assert LogKey(0) !in LogsIn(db, 0, min); }
      forall k | k in StableHits(db, min, max) ensures !Exposed(db, min, max, k) {
        LongExposedIff(db, min, max, k);
      }
    }
  }

  /** On a safe store one transaction with room for all hits removes the range. */
  lemma OneTxnExact(db: Db, min: uint64, max: uint64) returns (txns: seq<Txn>)
    requires WellFormed(db) && Safe(db, min, max)
    ensures Roomy(txns) && DeleteRun(db, min, max, txns) == (Done, db - LogsIn(db, min, max + 1))
  {
    var t := OneTxn(db, min, max);
    txns := [t];
    AlwaysExactIff(db, min, max);
  }

  /** Raft's own stable names are longer than eight bytes and read as 0. With one of them stored and
      nothing past the range, a range that holds an index is removed exactly, however the work is
      split, if and only if no index is stored below it. */
  lemma LongNamesExactIff(db: Db, min: uint64, max: uint64, name: Key)
    requires WellFormed(db) && !Blocked(db, min, max) && LogsIn(db, min, max + 1) != {} && LongNames(db)
    requires name in db && IsStableKey(name)
    ensures AlwaysExact(db, min, max) <==> LogsIn(db, 0, min) == {}
  {
    AlwaysExactIff(db, min, max);
    LongSafeIff(db, min, max, name);
  }

  // ---- such stores ----

  /** Indices 1 to 3 and one stable value. */
  function ThreeAnd(name: Key): Db {
    map[LogKey(1) := Entry(Log(1, [])), LogKey(2) := Entry(Log(2, [])), LogKey(3) := Entry(Log(3, [])),
        StableKey(name) := Raw([])]
  }

  /** Under any name longer than eight bytes, deleting index 3 is harmless by itself, and yet a
      transaction that fills up on that name makes the call remove indices 1 and 2 as well. */
  lemma ExposedStore(name: Key) returns (txns: seq<Txn>)
    requires |name| > 8
    ensures WellFormed(ThreeAnd(name)) && Harmless(ThreeAnd(name), 3, 3)
    ensures Roomy(txns) && DeleteRun(ThreeAnd(name), 3, 3, txns).0.Done?
    ensures LogKey(1) !in DeleteRun(ThreeAnd(name), 3, 3, txns).1 && LogKey(2) !in DeleteRun(ThreeAnd(name), 3, 3, txns).1
  {
    ThreeIndices(name);
    txns := LongNameRun(ThreeAnd(name), 3, 3, StableKey(name), LogKey(1), LogKey(3));
  }

  /** With a long name, an index in range and one below it, some split removes all those below. */
  lemma LongNameRun(db: Db, min: uint64, max: uint64, name: Key, low: Key, high: Key) returns (txns: seq<Txn>)
    requires WellFormed(db) && !Blocked(db, min, max) && LongNames(db) && name in db && IsStableKey(name)
    requires low in db && IsLogKey(low) && IndexOf(low) < min
    requires high in db && IsLogKey(high) && min <= IndexOf(high) <= max
    ensures Roomy(txns) && DeleteRun(db, min, max, txns).0.Done?
    ensures forall l | IsLogKey(l) && IndexOf(l) < min :: l !in DeleteRun(db, min, max, txns).1
    ensures LogKey(0) !in db ==> Harmless(db, min, max)
  {
    LongReading(name);
    assert high in LogsIn(db, min, max + 1) && low in LogsIn(db, 0, min);
    LongHit(db, min, max, name);
    LongExposedIff(db, min, max, name);
    txns := ExposedRun(db, min, max, name);
  }

  lemma ThreeIndices(name: Key)
    requires |name| > 8
    ensures var db := ThreeAnd(name);
            && WellFormed(db) && LongNames(db) && !Blocked(db, 3, 3) && LogKey(0) !in db
            && LogKey(1) in db && LogKey(3) in db
            && IsLogKey(LogKey(1)) && IndexOf(LogKey(1)) == 1 && IsLogKey(LogKey(2)) && IndexOf(LogKey(2)) == 2
            && IsLogKey(LogKey(3)) && IndexOf(LogKey(3)) == 3
  {
    LogKeyIndex(0);
    LogKeyIndex(1);
    LogKeyIndex(2);
    LogKeyIndex(3);
  }

  /** An eight-byte name that reads up to `max` is itself removed, with no index in the store at all. */
  lemma HarmfulStore(name: Key, min: uint64, max: uint64) returns (txns: seq<Txn>)
    requires |name| == 8 && BytesToUint64(name) <= max
    ensures var db := map[StableKey(name) := Raw([])];
            && Roomy(txns) && DeleteRun(db, min, max, txns).0.Done?
            && DeleteRun(db, min, max, txns).1 != db - LogsIn(db, min, max + 1)
  {
    var k := StableKey(name);
    var db: Db := map[k := Raw([])];
    assert k + Zeros(0) == k && k[1..] == name;
    assert k in db && Reading(k) <= max;
    txns := HarmfulRun(db, min, max);
  }

  // ---- any single call ----

  /** Nothing but the range can be hit, and either no transaction fills up on a stable key or
      starting over from one does not lead below the range. */
  ghost predicate Sound(db: Db, min: uint64, max: uint64, txns: seq<Txn>) {
    && Harmless(db, min, max)
    && (FullOnlyOnLogs(db, min, max, txns) || (NoneExposed(db, min, max) && Roomy(txns)))
  }

  lemma SoundDelete(db: Db, min: uint64, max: uint64, txns: seq<Txn>) returns (cut: int)
    requires WellFormed(db) && Sound(db, min, max, txns)
    ensures var (outcome, db') := DeleteRun(db, min, max, txns); Exactly(db, min, max, cut, outcome, db')
  {
    if FullOnlyOnLogs(db, min, max, txns) {
      cut := DeleteHarmless(db, min, max, txns);
    } else {
      cut := SafeDelete(db, min, max, txns);
    }
  }
}
