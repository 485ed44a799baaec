/** When the log a Raft node keeps in the store has no holes: entries are appended after the last
    index, compaction drops a prefix, truncation drops a suffix. */
module LogInterval {
  import opened Bytes
  import opened Badger
  import opened LogStore
  import opened LogIndex
  import opened DeleteRangeProofs
  import opened DeleteSafety
  import opened StoreRefinement

  ghost predicate Consecutive(logs: seq<Log>, start: int) {
    forall j | 0 <= j < |logs| :: logs[j].index == start + j < LAST_LIMIT
  }

  ghost predicate Span(indices: set<uint64>, lo: int, hi: int) {
    forall i: uint64 :: i in indices <==> lo <= i <= hi
  }

  ghost predicate IsSpan(indices: set<uint64>) {
    exists lo, hi :: 1 <= lo && hi < LAST_LIMIT && Span(indices, lo, hi)
  }

  /** The stored indices, none of them 0, form an interval. */
  ghost predicate Contiguous(db: Db) {
    Good(db) && IsSpan(LogMap(db).Keys)
  }

  /** On an interval the two bounds are those the store reports. */
  lemma Bounds(db: Db, lo: int, hi: int)
    requires Good(db) && 1 <= lo && hi < LAST_LIMIT && Span(LogMap(db).Keys, lo, hi)
    ensures if lo <= hi then FirstIndexOf(db) == lo && LastIndexOf(db) == hi
            else LogMap(db).Keys == {} && FirstIndexOf(db) == LastIndexOf(db) == 0
  {
    FirstIsLeast(db);
    LastExactIff(db);
    var s := LogMap(db).Keys;
    if lo <= hi {
      var a: uint64, b: uint64 := lo, hi;
      assert a in s && b in s;
    } else {
      forall i | i in s ensures false {}
      assert s == {};
    }
  }

  /** On a contiguous log GetLog finds an entry exactly between FirstIndex and LastIndex. */
  lemma FoundBetweenBounds(db: Db, i: uint64)
    requires Contiguous(db) && i >= 1
    ensures Perform(db, GetLog(i)).0.Found? <==> FirstIndexOf(db) <= i <= LastIndexOf(db)
  {
    var lo, hi :| 1 <= lo && hi < LAST_LIMIT && Span(LogMap(db).Keys, lo, hi);
    Bounds(db, lo, hi);
    IndexStored(db, i);
  }

  lemma {:induction false} ConsecutiveKeys(m: map<uint64, Log>, logs: seq<Log>, start: int)
    requires Consecutive(logs, start)
    ensures forall i: uint64 :: i in PutLogs(m, logs) <==> i in m || start <= i < start + |logs|
  {
    if logs != [] {
      ConsecutiveKeys(m, logs[..|logs| - 1], start);
    }
  }

  ghost function Last(lo: int, hi: int): int { if lo <= hi then hi else 0 }

  lemma AppendSpan(m: map<uint64, Log>, logs: seq<Log>, lo: int, hi: int)
    requires 1 <= lo && hi < LAST_LIMIT && Span(m.Keys, lo, hi)
    requires Consecutive(logs, Last(lo, hi) + 1)
    ensures IsSpan(PutLogs(m, logs).Keys)
  {
    ConsecutiveKeys(m, logs, Last(lo, hi) + 1);
    assert logs != [] ==> logs[|logs| - 1].index == Last(lo, hi) + |logs|;
    assert Span(PutLogs(m, logs).Keys, if lo <= hi then lo else 1, Last(lo, hi) + |logs|);
  }

  lemma AppendFrom(db: Db, logs: seq<Log>, txns: seq<Txn>, lo: int, hi: int)
    requires Good(db) && 1 <= lo && hi < LAST_LIMIT && Span(LogMap(db).Keys, lo, hi)
    requires Consecutive(logs, Last(lo, hi) + 1)
    ensures Contiguous(StoreRun(db, logs, txns).1)
  {
    var n := StoreMaps(db, logs, txns);
    PutLogsVisible(LogMap(db), logs[..n]);
    AppendSpan(LogMap(db), logs[..n], lo, hi);
  }

  lemma AppendStep(db: Db, logs: seq<Log>, txns: seq<Txn>)
    requires Contiguous(db) && Consecutive(logs, LastIndexOf(db) + 1)
    ensures Contiguous(StoreRun(db, logs, txns).1)
  {
    var lo, hi :| 1 <= lo && hi < LAST_LIMIT && Span(LogMap(db).Keys, lo, hi);
    Bounds(db, lo, hi);
    AppendFrom(db, logs, txns, lo, hi);
  }

  /** Taking [min, cut) out of an interval leaves an interval if and only if it takes out nothing,
      or nothing is left below it, or nothing is left above it. */
  lemma CutSpan(m: map<uint64, Log>, lo: int, hi: int, min: int, cut: int)
    requires 1 <= lo && hi < LAST_LIMIT && Span(m.Keys, lo, hi)
    ensures IsSpan(DropRange(m, min, cut).Keys) <==> (DropRange(m, min, cut) == m || min <= lo || hi < cut)
  {
    var s, s' := m.Keys, DropRange(m, min, cut).Keys;
    if s' == s {
      assert DropRange(m, min, cut) == m;
    } else if min <= lo {
      assert Span(s', if cut > lo then cut else lo, hi);
    } else if hi < cut {
      assert Span(s', lo, if min - 1 < hi then min - 1 else hi);
    } else {
      var gone :| gone in s && gone !in s';
      var a: uint64, b: uint64 := lo, hi;
      assert a in s' && b in s' && a <= gone <= b;
    }
  }

  /** Removing the indices of [min, cut) from a contiguous log leaves it contiguous if and only if
      it removes nothing, or begins at or below the first index, or gets past the last one. */
  lemma RemoveContiguousIff(db: Db, db': Db, min: int, cut: int)
    requires Contiguous(db) && WellFormed(db') && LogMap(db') == DropRange(LogMap(db), min, cut)
    ensures Contiguous(db') <==>
            LogMap(db') == LogMap(db) || min <= FirstIndexOf(db) || LastIndexOf(db) < cut
  {
    var lo, hi :| 1 <= lo && hi < LAST_LIMIT && Span(LogMap(db).Keys, lo, hi);
    CutSpan(LogMap(db), lo, hi, min, cut);
    Bounds(db, lo, hi);
    if LogMap(db).Keys == {} { assert LogMap(db') == LogMap(db); }
  }

  lemma DeleteContiguous(db: Db, min: uint64, max: uint64, txns: seq<Txn>)
    requires Contiguous(db) && Guard(db, DeleteRange(min, max, txns))
    requires || min <= FirstIndexOf(db)
             || (LastIndexOf(db) <= max && DeleteRun(db, min, max, txns).0.Done?)
    ensures Contiguous(DeleteRun(db, min, max, txns).1)
  {
    var cut := DeleteMaps(db, min, max, txns);
    RemoveContiguousIff(db, DeleteRun(db, min, max, txns).1, min, cut);
  }

  // ---- deletions that fail part way ----

  /** What a caller can see of a deletion that leaves no hole whatever becomes of it: it begins at or
      below the first index, or there is nothing in its range, or there is one index in it, the last. */
  ghost predicate HoleFree(db: Db, min: uint64, max: uint64) {
    || min <= FirstIndexOf(db)
    || LogsIn(db, min, max + 1) == {}
    || (LastIndexOf(db) <= max && |LogsIn(db, min, max + 1)| == 1)
  }

  /** Every split of the call, ended, failed or still under way, leaves no hole. */
  ghost predicate NeverHoles(db: Db, min: uint64, max: uint64) {
    forall txns: seq<Txn> | Roomy(txns) :: Contiguous(DeleteRun(db, min, max, txns).1)
  }

  lemma InRange(db: Db, lo: int, hi: int, i: uint64)
    requires WellFormed(db) && i in LogMap(db) && lo <= i < hi
    ensures LogKey(i) in LogsIn(db, lo, hi)
  {
    LogKeyIndex(i);
  }

  lemma OneElement(s: set<Key>, a: Key, b: Key)
    requires a in s && b in s && a != b
    ensures |s| != 1
  {
    Subset({a, b}, s);
  }

  lemma TwoStored(db: Db, lo: int, hi: int, i: uint64, j: uint64)
    requires WellFormed(db) && i in LogMap(db) && j in LogMap(db) && lo <= i < hi && lo <= j < hi && i != j
    ensures |LogsIn(db, lo, hi)| != 1
  {
    InRange(db, lo, hi, i);
    InRange(db, lo, hi, j);
    LogKeyIndex(i);
    LogKeyIndex(j);
    OneElement(LogsIn(db, lo, hi), LogKey(i), LogKey(j));
  }

  /** Removing below a cut from a range that holds only the last index removes nothing or gets past it. */
  lemma AllOrNothing(db: Db, min: uint64, max: uint64, cut: int, last: uint64)
    requires WellFormed(db) && last in LogMap(db) && min <= last && cut <= last <= max
    requires |LogsIn(db, min, max + 1)| == 1
    ensures DropRange(LogMap(db), min, cut) == LogMap(db)
  {
    forall i | i in LogMap(db) ensures !(min <= i < cut) {
      if min <= i < cut { TwoStored(db, min, max + 1, i, last); }
    }
    DropNone(LogMap(db), min, cut);
  }

  lemma DropNone(m: map<uint64, Log>, min: int, cut: int)
    requires forall i | i in m :: !(min <= i < cut)
    ensures DropRange(m, min, cut) == m
  {}

  /** The last index is in every range that holds an index and reaches up to it. */
  lemma LastInRange(db: Db, min: uint64, max: uint64)
    requires Good(db) && LogsIn(db, min, max + 1) != {}
    ensures LastIndexOf(db) in LogMap(db) && min <= LastIndexOf(db)
  {
    var k :| k in LogsIn(db, min, max + 1);
    assert IndexOf(k) in Indices(db);
    LastExactIff(db);
  }

  lemma NothingDropped(db: Db, min: uint64, max: uint64, cut: int)
    requires WellFormed(db) && LogsIn(db, min, max + 1) == {} && cut <= max + 1
    ensures DropRange(LogMap(db), min, cut) == LogMap(db)
  {
    forall i | i in LogMap(db) ensures !(min <= i < cut) {
      if min <= i < cut { InRange(db, min, max + 1, i); }
    }
    DropNone(LogMap(db), min, cut);
  }

  /** A deletion of which a caller can see that much leaves no hole. */
  lemma HoleFreeKeeps(db: Db, min: uint64, max: uint64, txns: seq<Txn>)
    requires Contiguous(db) && Sound(db, min, max, txns) && HoleFree(db, min, max)
    ensures Contiguous(DeleteRun(db, min, max, txns).1)
  {
    var cut := DeleteMaps(db, min, max, txns);
    RemoveContiguousIff(db, DeleteRun(db, min, max, txns).1, min, cut);
    if FirstIndexOf(db) < min && cut <= LastIndexOf(db) {
      if LogsIn(db, min, max + 1) == {} {
        if cut <= max + 1 { NothingDropped(db, min, max, cut); } else { assert cut == min; }
      } else {
        LastInRange(db, min, max);
        AllOrNothing(db, min, max, cut, LastIndexOf(db));
      }
    }
  }

  /** Taking out an index between the first and the last one leaves a hole. */
  lemma Hole(db: Db, min: uint64, cut: int, k: Key)
    requires Contiguous(db) && FirstIndexOf(db) < min && cut <= LastIndexOf(db) && k in LogsIn(db, min, cut)
    ensures !Contiguous(db - LogsIn(db, min, cut))
  {
    RemoveLogs(db, min, cut);
    IndexLogKey(k);
    IndexStored(db, IndexOf(k));
    RemoveContiguousIff(db, db - LogsIn(db, min, cut), min, cut);
    assert IndexOf(k) in LogMap(db) && IndexOf(k) !in DropRange(LogMap(db), min, cut);
  }

  /** Two indices of the range are the first two keys that the scan hits. */
  lemma TwoLogHits(db: Db, min: uint64, max: uint64, hits: seq<Key>, a: Key, b: Key)
    requires WellFormed(db) && hits == Hits(db, min, max)
    requires a in LogsIn(db, min, max + 1) && b in LogsIn(db, min, max + 1) && a != b
    ensures |hits| > 1 && IsLogKey(hits[0]) && IsLogKey(hits[1])
  {
    HitsAre(db, min, max);
    assert a in hits && b in hits;
    FirstTwo(hits, a, b);
  }

  lemma FirstTwo(keys: seq<Key>, a: Key, b: Key)
    requires Ascending(keys) && a in keys && b in keys && a != b && IsLogKey(a) && IsLogKey(b)
    requires forall k | k in keys :: IsLogKey(k) || IsStableKey(k)
    ensures |keys| > 1 && IsLogKey(keys[0]) && IsLogKey(keys[1])
  {
    var i :| 0 <= i < |keys| && keys[i] == a;
    var j :| 0 <= j < |keys| && keys[j] == b;
    var m := if i < j then j else i;
    forall x | 0 <= x < m ensures IsLogKey(keys[x]) {
      assert keys[x] in keys && Less(keys[x], keys[m]);
      if IsStableKey(keys[x]) { LogBeforeStable(keys[m], keys[x]); }
    }
  }

  /** A deletion that begins past the first index, of two indices or more, can fail having left a hole:
      its first transaction takes one index and commits, its second one does not commit. */
  lemma FailedDeleteLeavesHole(db: Db, min: uint64, max: uint64, a: Key, b: Key) returns (txns: seq<Txn>)
    requires Contiguous(db) && FirstIndexOf(db) < min
    requires a in LogsIn(db, min, max + 1) && b in LogsIn(db, min, max + 1) && a != b
    ensures txns == [Txn(1, TooBig, true), Txn(1, TooBig, false)]
    ensures DeleteRun(db, min, max, txns).0.Failed? && !Contiguous(DeleteRun(db, min, max, txns).1)
  {
    var t1, t2 := Txn(1, TooBig, true), Txn(1, TooBig, false);
    txns := [t1, t2];
    assert txns[1..] == [t2] && [t2][0] == t2;
    TwoLogHits(db, min, max, Hits(db, min, max), a, b);
    RestartStep(db, min, max, t1);
    var step := DeleteTxn(db, min, max, t1);
    assert DeleteTxn(step.db, step.min, max, t2) == Stop(Failed, step.db);
    AfterOne(db, min, max, Hits(db, min, max));
    var k :| k in LogsIn(db, min, step.min);
    Hole(db, min, step.min, k);
  }

  lemma AfterOne(db: Db, min: uint64, max: uint64, hits: seq<Key>)
    requires Good(db) && hits == Hits(db, min, max) && |hits| > 1 && IsLogKey(hits[1])
    ensures Reading(hits[1]) <= LastIndexOf(db)
  {
    assert hits[1] in HitSet(db, min, max);
    LogKeyReading(hits[1]);
    assert IndexOf(hits[1]) in Indices(db);
    LastExactIff(db);
  }

  /** A deletion that stops short of the last index leaves a hole when it succeeds. */
  lemma InnerDeleteLeavesHole(db: Db, min: uint64, max: uint64, k: Key) returns (txns: seq<Txn>)
    requires Contiguous(db) && Safe(db, min, max) && FirstIndexOf(db) < min && max < LastIndexOf(db)
    requires k in LogsIn(db, min, max + 1)
    ensures Roomy(txns) && !Contiguous(DeleteRun(db, min, max, txns).1)
  {
    txns := OneTxnExact(db, min, max);
    Hole(db, min, max + 1, k);
  }

  lemma TwoInRange(s: set<Key>) returns (a: Key, b: Key)
    requires s != {} && |s| != 1
    ensures a in s && b in s && a != b
  {
    a :| a in s;
    assert s == {a} + (s - {a});
    b :| b in s - {a};
  }

  /** On a contiguous, safe store every call leaves no hole, however its work is split and whether it
      ends, fails or is still under way, if and only if it is hole-free. */
  lemma NeverHolesIff(db: Db, min: uint64, max: uint64)
    requires Contiguous(db) && Safe(db, min, max)
    ensures NeverHoles(db, min, max) <==> HoleFree(db, min, max)
  {
    if HoleFree(db, min, max) {
      forall txns: seq<Txn> | Roomy(txns) ensures Contiguous(DeleteRun(db, min, max, txns).1) {
        if Blocked(db, min, max) { BlockedStaysOnLogs(db, min, max, txns); }
        HoleFreeKeeps(db, min, max, txns);
      }
    } else if max < LastIndexOf(db) {
      var k :| k in LogsIn(db, min, max + 1);
      var txns := InnerDeleteLeavesHole(db, min, max, k);
    } else {
      var a, b := TwoInRange(LogsIn(db, min, max + 1));
      var txns := FailedDeleteLeavesHole(db, min, max, a, b);
      assert Roomy(txns);
    }
  }

  // ---- histories ----

  /** What keeps the log contiguous: entries continue it; a deletion is hole-free, or reaches to the
      last index and succeeds. Stable writes and lookups are free. */
  ghost predicate Keeps(db: Db, op: Op) {
    match op
    case StoreLog(log, t) => Consecutive([log], LastIndexOf(db) + 1)
    case StoreLogs(logs, _) => Consecutive(logs, LastIndexOf(db) + 1)
    case DeleteRange(min, max, txns) =>
      HoleFree(db, min, max) || (LastIndexOf(db) <= max && DeleteRun(db, min, max, txns).0.Done?)
    case _ => true
  }

  lemma DeleteKeeps(db: Db, min: uint64, max: uint64, txns: seq<Txn>)
    requires Contiguous(db) && Sound(db, min, max, txns) && Keeps(db, DeleteRange(min, max, txns))
    ensures Contiguous(DeleteRun(db, min, max, txns).1)
  {
    if HoleFree(db, min, max) {
      HoleFreeKeeps(db, min, max, txns);
    } else {
      DeleteContiguous(db, min, max, txns);
    }
  }

  lemma StoreOneKeeps(db: Db, log: Log, t: Txn)
    requires Contiguous(db) && Consecutive([log], LastIndexOf(db) + 1)
    ensures Contiguous(Perform(db, StoreLog(log, t)).1)
  {
    assert [log][0] == log;
    AppendStep(db, [log], [Txn(1, TooBig, true)]);
    assert [log][..0] == [];
    assert PutAll(db, [log]) == db[LogKey(log.index) := Entry(log)];
  }

  lemma SetKeeps(db: Db, name: Key, value: seq<byte>)
    requires Contiguous(db)
    ensures Contiguous(db[StableKey(name) := Raw(value)])
  {
    SetOne(db, name, value);
  }

  /** Every operation of the store that keeps to this, whether it succeeds, fails or is still under
      way, leaves the log contiguous. */
  lemma OpKeepsContiguous(db: Db, op: Op, r: Response, db': Db)
    requires Contiguous(db) && Next(db, op, r, db') && Keeps(db, op)
    ensures Contiguous(db')
  {
    match op
    case StoreLogs(logs, txns) => AppendStep(db, logs, txns);
    case StoreLog(log, t) => StoreOneKeeps(db, log, t);
    case DeleteRange(min, max, txns) => DeleteKeeps(db, min, max, txns);
    case Set(name, value, _) => SetKeeps(db, name, value);
    case SetUint64(name, u, _) => SetKeeps(db, name, Uint64ToBytes(u));
    case _ =>
  }

  /** Compaction that stops short of the last index is sound on every store and hole-free. */
  lemma CompactionKeeps(db: Db, min: uint64, max: uint64, txns: seq<Txn>)
    requires Good(db) && min <= FirstIndexOf(db) && max < LastIndexOf(db)
    ensures Sound(db, min, max, txns) && Keeps(db, DeleteRange(min, max, txns))
  {
    FirstIsLeast(db);
    LastExactIff(db);
    var last := LastIndexOf(db);
    IndexStored(db, last);
    LogKeyIndex(last);
    BlockedStaysOnLogs(db, min, max, txns);
  }

  /** From the empty store on, with stable values written in between, the log is contiguous at every
      point of every run. */
  lemma {:induction false} AlwaysContiguous(dbs: seq<Db>, ops: seq<Op>, rs: seq<Response>, n: nat)
    requires n <= |ops| == |rs| < |dbs|
    requires dbs[0] == map[] && IsRun(dbs, ops, rs, n) && forall i | 0 <= i < n :: Keeps(dbs[i], ops[i])
    ensures Contiguous(dbs[n])
  {
    if n == 0 {
      assert Span(LogMap(dbs[0]).Keys, 1, 0);
    } else {
      AlwaysContiguous(dbs, ops, rs, n - 1);
      OpKeepsContiguous(dbs[n - 1], ops[n - 1], rs[n - 1], dbs[n]);
    }
  }
}
