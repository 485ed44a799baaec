/** The store of raft/badger_store.go itself: its methods, as loops over a batch or an iterator that
    fill a transaction and start over when it is full, proved against the specification. */
module BadgerStores {
  import opened Bytes
  import opened Badger
  import opened LogStore
  import opened LogIndex
  import opened DeleteSafety
  import opened StoreRefinement

  /** From position `p` on, `e` is where a scan meets the first key that reads above `max`. */
  ghost predicate IsScanEnd(items: seq<Key>, p: nat, max: uint64, e: nat) {
    && p <= e <= |items|
    && (forall j | p <= j < e :: Reading(items[j]) <= max)
    && (e < |items| ==> Reading(items[e]) > max)
  }

  ghost predicate IsSeekPoint(items: seq<Key>, min: uint64, p: nat) {
    && p <= |items|
    && (forall j | 0 <= j < p :: Less(items[j], LogKey(min)))
    && (forall j | p <= j < |items| :: !Less(items[j], LogKey(min)))
  }

  lemma {:induction false} FirstAbove(n: nat, i: nat, above: nat -> bool) returns (e: nat)
    requires i <= n
    ensures i <= e <= n && (forall j | i <= j < e :: !above(j)) && (e < n ==> above(e))
    decreases n - i
  {
    e := i;
    if i < n && !above(i) { e := FirstAbove(n, i + 1, above); }
  }

  lemma ScanEndExists(items: seq<Key>, i: nat, max: uint64) returns (e: nat)
    requires i <= |items|
    ensures IsScanEnd(items, i, max, e)
  {
    var above := (j: nat) => j < |items| && Reading(items[j]) > max;
    e := FirstAbove(|items|, i, above);
    forall j | i <= j < e ensures Reading(items[j]) <= max { assert !above(j); }
    assert e < |items| ==> above(e);
  }

  lemma ScanEndPast(items: seq<Key>, p: nat, i: nat, max: uint64) returns (e: nat)
    requires p <= i < |items| && forall j | p <= j <= i :: Reading(items[j]) <= max
    ensures i < e && IsScanEnd(items, p, max, e)
  {
    e := ScanEndExists(items, i, max);
  }

  /** The keys between the seek position and the end of the scan are the hits. */
  lemma ScanHits(db: Db, min: uint64, max: uint64, items: seq<Key>, p: nat, e: nat)
    requires items == Sorted(db.Keys) && IsSeekPoint(items, min, p) && IsScanEnd(items, p, max, e)
    ensures Hits(db, min, max) == items[p..e]
  {
    forall i | 0 <= i < |items| ensures items[i] in HitSet(db, min, max) <==> p <= i < e {
      ScannedIsHit(db, min, max, items, p, e, i);
    }
    SortedSlice(items, p, e, HitSet(db, min, max));
  }

  lemma ScannedIsHit(db: Db, min: uint64, max: uint64, items: seq<Key>, p: nat, e: nat, i: nat)
    requires Ascending(items) && (forall k :: k in items <==> k in db) && i < |items|
    requires IsSeekPoint(items, min, p) && IsScanEnd(items, p, max, e)
    ensures items[i] in HitSet(db, min, max) <==> p <= i < e
  {
    assert items[i] in db;
    if p <= i < e {
      forall j | j in db && !Less(j, LogKey(min)) && !Less(items[i], j) ensures Reading(j) <= max {
        assert j in items;
        var m :| 0 <= m < |items| && items[m] == j;
      }
    } else if e <= i {
      assert items[e] in db;
      LessIrreflexive(items[e]);
      if e < i { LessAsymmetric(items[e], items[i]); }
    }
  }

  lemma SlicePrefix(items: seq<Key>, p: nat, i: nat, e: nat)
    requires p <= i < e <= |items|
    ensures items[p..e][..i - p] == items[p..i] && items[p..e][i - p] == items[i]
  {}

  /** The keys deleted in a transaction are the buffers of the keys scanned. */
  lemma PendingBuffers(keys: seq<Key>, pending: seq<Key>)
    requires |pending| == |keys| && forall j | 0 <= j < |keys| :: pending[j] == Buffer(keys[j])
    ensures (set k | k in pending) == Buffers(keys)
  {
    forall k | k in pending ensures k in Buffers(keys) {
      var j :| 0 <= j < |pending| && pending[j] == k;
      assert keys[j] in keys;
    }
    forall k | k in keys ensures Buffer(k) in pending {
      var j :| 0 <= j < |keys| && keys[j] == k;
      assert pending[j] == Buffer(k);
    }
  }

  /** The loop of DeleteRange: deletes in one transaction, from the seek position on, until a key
      reads above `max`, the keys run out, or the transaction is full. */
  method FillTxn(items: seq<Key>, p: nat, max: uint64, room: nat) returns (i: nat, pending: seq<Key>, full: bool)
    requires p <= |items|
    ensures p <= i <= |items| && i - p <= room && (set k | k in pending) == Buffers(items[p..i])
    ensures if full then i < |items| && i - p == room && forall j | p <= j <= i :: Reading(items[j]) <= max
            else IsScanEnd(items, p, max, i)
  {
    i, pending := p, [];
    while i < |items|
      invariant p <= i <= |items| && i - p <= room
      invariant forall j | p <= j < i :: Reading(items[j]) <= max
      invariant |pending| == i - p && forall j | 0 <= j < |pending| :: pending[j] == Buffer(items[p + j])
    {
      var key := Buffer(items[i]);
      if BytesToUint64(key[1..]) > max { break; }
      if i - p == room {
        PendingBuffers(items[p..i], pending);
        return i, pending, true;
      }
      pending := pending + [key];
      i := i + 1;
    }
    PendingBuffers(items[p..i], pending);
    full := false;
  }

  lemma TxnOfHits(db: Db, min: uint64, max: uint64, t: Txn, hits: seq<Key>)
    requires hits == Hits(db, min, max)
    ensures |hits| <= t.room ==>
      DeleteTxn(db, min, max, t) == if t.commits then Stop(Done, db - Buffers(hits)) else Stop(Failed, db)
    ensures |hits| > t.room ==>
      DeleteTxn(db, min, max, t) ==
        if t.limit.Fault? || !t.commits then Stop(Failed, db)
        else Restart(db - Buffers(hits[..t.room]), Reading(hits[t.room]))
  {}

  /** What a transaction amounts to that is full at position `i`. */
  lemma FullTxn(db: Db, min: uint64, max: uint64, items: seq<Key>, p: nat, i: nat, t: Txn)
    requires items == Sorted(db.Keys) && IsSeekPoint(items, min, p)
    requires p <= i < |items| && i - p == t.room && forall j | p <= j <= i :: Reading(items[j]) <= max
    ensures DeleteTxn(db, min, max, t) ==
            if t.limit.Fault? || !t.commits then Stop(Failed, db)
            else Restart(db - Buffers(items[p..i]), Reading(items[i]))
  {
    var e := ScanEndPast(items, p, i, max);
    ScanHits(db, min, max, items, p, e);
    FullSlice(db, min, max, items, p, i, e, t);
  }

  lemma FullSlice(db: Db, min: uint64, max: uint64, items: seq<Key>, p: nat, i: nat, e: nat, t: Txn)
    requires p <= i < e <= |items| && t.room == i - p && items[p..e] == Hits(db, min, max)
    ensures DeleteTxn(db, min, max, t) ==
            if t.limit.Fault? || !t.commits then Stop(Failed, db)
            else Restart(db - Buffers(items[p..i]), Reading(items[i]))
  {
    SlicePrefix(items, p, i, e);
    FullOfHits(db, min, max, t, items[p..e], items[p..i], items[i]);
  }

  lemma FullOfHits(db: Db, min: uint64, max: uint64, t: Txn, hits: seq<Key>, taken: seq<Key>, next: Key)
    requires hits == Hits(db, min, max) && |hits| > t.room && hits[..t.room] == taken && hits[t.room] == next
    ensures DeleteTxn(db, min, max, t) ==
            if t.limit.Fault? || !t.commits then Stop(Failed, db) else Restart(db - Buffers(taken), Reading(next))
  {
    TxnOfHits(db, min, max, t, hits);
  }

  /** What a transaction amounts to that takes the whole scan. */
  lemma WholeTxn(db: Db, min: uint64, max: uint64, items: seq<Key>, p: nat, i: nat, t: Txn)
    requires items == Sorted(db.Keys) && IsSeekPoint(items, min, p)
    requires IsScanEnd(items, p, max, i) && i - p <= t.room
    ensures DeleteTxn(db, min, max, t) ==
            if t.commits then Stop(Done, db - Buffers(items[p..i])) else Stop(Failed, db)
  {
    ScanHits(db, min, max, items, p, i);
    TxnOfHits(db, min, max, t, items[p..i]);
  }

  class BadgerStore {
    var db: Db

    constructor ()
      ensures db == map[] && WellFormed(db)
    {
      db := map[];
    }

    method FirstIndex() returns (value: uint64)
      requires WellFormed(db)
      ensures value == FirstIndexOf(db) && IsFirst(value, Indices(db))
    {
      value := 0;
      var items := NewIterator(db.Keys);
      var p := Seek(items, [0]);
      SeekSlice(db.Keys, items, [0], p);
      if p < |items| && |items[p]| >= 1 && items[p][0] == 0 {
        assert items[p] in db;
        value := BytesToUint64(items[p][1..]);
      }
      FirstIsLeast(db);
    }

    method LastIndex() returns (value: uint64)
      requires WellFormed(db)
      ensures value == LastIndexOf(db) && IsLast(value, Visible(Indices(db)))
    {
      value := 0;
      var items := NewIterator(db.Keys);
      var p := SeekReverse(items, SEEK_LAST);
      assert LastIndexOf(db) == if p > 0 && IsLogKey(items[p - 1]) then IndexOf(items[p - 1]) else 0 by {
        SeekReverseSlice(db.Keys, items, SEEK_LAST, p);
        LastAtSeek(db, items, p);
      }
      if p > 0 && |items[p - 1]| >= 1 && items[p - 1][0] == 0 {
        assert items[p - 1] in db;
        value := BytesToUint64(items[p - 1][1..]);
      }
      LastIsGreatest(db);
    }

    method GetLog(index: uint64) returns (r: Response)
      requires WellFormed(db)
      ensures AbsStep(Abstract(db), Op.GetLog(index), r, Abstract(db))
    {
      LogKeyIndex(index);
      MapsAre(db);
      if LogKey(index) !in db {
        return LogNotFound;
      }
      r := Found(db[LogKey(index)].log);
    }

    method StoreLog(log: Log, t: Txn) returns (outcome: Outcome)
      requires WellFormed(db)
      modifies this
      ensures WellFormed(db) && AbsStep(Abstract(old(db)), Op.StoreLog(log, t), Ended(outcome), Abstract(db))
      ensures outcome == if t.room >= 1 && t.commits then Done else Failed
    {
      PutOne(db, log);
      if t.room == 0 || !t.commits { return Failed; }
      db := db[LogKey(log.index) := Entry(log)];
      outcome := Done;
    }

    /** A StoreLogs that ends, fails or is still under way has stored a prefix of its batch. */
    method StoreLogs(logs: seq<Log>, txns: seq<Txn>) returns (outcome: Outcome)
      requires WellFormed(db)
      modifies this
      ensures (outcome, db) == StoreRun(old(db), logs, txns)
      ensures WellFormed(db) && AbsStep(Abstract(old(db)), Op.StoreLogs(logs, txns), Ended(outcome), Abstract(db))
    {
      var _ := StoreMaps(db, logs, txns);
      outcome := StoreBatch(logs, txns);
    }

    method StoreBatch(logs: seq<Log>, txns: seq<Txn>) returns (outcome: Outcome)
      modifies this
      ensures (outcome, db) == StoreRun(old(db), logs, txns)
      decreases |txns|
    {
      if txns == [] { return Running; }
      var t := txns[0];
      var pending: Db := map[];
      for i := 0 to |logs|
        invariant i <= t.room
        invariant db == old(db) && db + pending == PutAll(db, logs[..i])
      {
        if i == t.room {
          if t.limit.Fault? || !t.commits { return Failed; }
          db := db + pending;
          outcome := StoreBatch(logs[i..], txns[1..]);
          return;
        }
        pending := pending[LogKey(logs[i].index) := Entry(logs[i])];
        assert logs[..i + 1][..i] == logs[..i];
      }
      assert logs[..|logs|] == logs;
      if !t.commits { return Failed; }
      db := db + pending;
      outcome := Done;
    }

    /** A sound DeleteRange has removed an initial part of its range, all of it if it ended. */
    method DeleteRange(min: uint64, max: uint64, txns: seq<Txn>) returns (outcome: Outcome)
      requires WellFormed(db)
      modifies this
      ensures WellFormed(db) && (outcome, db) == DeleteRun(old(db), min, max, txns)
      ensures Sound(old(db), min, max, txns) ==>
        AbsStep(Abstract(old(db)), Op.DeleteRange(min, max, txns), Ended(outcome), Abstract(db))
    {
      DeleteKeepsWellFormed(db, min, max, txns);
      if Sound(db, min, max, txns) { var _ := DeleteMaps(db, min, max, txns); }
      outcome := DeleteScan(min, max, txns);
    }

    method DeleteScan(min: uint64, max: uint64, txns: seq<Txn>) returns (outcome: Outcome)
      modifies this
      ensures (outcome, db) == DeleteRun(old(db), min, max, txns)
      decreases |txns|
    {
      if txns == [] { return Running; }
      var t := txns[0];
      var items := NewIterator(db.Keys);
      var p := Seek(items, LogKey(min));
      var i, pending, full := FillTxn(items, p, max, t.room);
      if full {
        FullTxn(db, min, max, items, p, i, t);
        if t.limit.Fault? || !t.commits { return Failed; }
        db := db - set k | k in pending;
        outcome := DeleteScan(Reading(items[i]), max, txns[1..]);
        return;
      }
      WholeTxn(db, min, max, items, p, i, t);
      if !t.commits { return Failed; }
      db := db - set k | k in pending;
      outcome := Done;
    }

    method Set(key: Key, val: seq<byte>, t: Txn) returns (outcome: Outcome)
      requires WellFormed(db)
      modifies this
      ensures WellFormed(db) && AbsStep(Abstract(old(db)), Op.Set(key, val, t), Ended(outcome), Abstract(db))
      ensures outcome == if t.room >= 1 && t.commits then Done else Failed
    {
      SetOne(db, key, val);
      if t.room == 0 || !t.commits { return Failed; }
      db := db[StableKey(key) := Raw(val)];
      outcome := Done;
    }

    method Get(key: Key) returns (r: Response)
      requires WellFormed(db)
      ensures AbsStep(Abstract(db), Op.Get(key), r, Abstract(db))
    {
      MapsAre(db);
      if StableKey(key) !in db { return KeyNotFound; }
      r := Value(db[StableKey(key)].bytes);
    }

    method SetUint64(key: Key, val: uint64, t: Txn) returns (outcome: Outcome)
      requires WellFormed(db)
      modifies this
      ensures WellFormed(db) && AbsStep(Abstract(old(db)), Op.SetUint64(key, val, t), Ended(outcome), Abstract(db))
      ensures outcome == if t.room >= 1 && t.commits then Done else Failed
    {
      outcome := Set(key, Uint64ToBytes(val), t);
    }

    method GetUint64(key: Key) returns (r: Response)
      requires WellFormed(db)
      ensures AbsStep(Abstract(db), Op.GetUint64(key), r, Abstract(db))
    {
      r := Get(key);
      if r.Value? {
        r := if |r.bytes| < 8 then Panic else Number(BytesToUint64(r.bytes[..8]));
      }
    }
  }
}
