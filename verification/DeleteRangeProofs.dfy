/** What DeleteRange removes, when it removes exactly the indices asked for, and when it ends. */
module DeleteRangeProofs {
  import opened Bytes
  import opened Badger
  import opened LogStore

  /** The keys of the stored indices from `lo` up to but not including `hi`. */
  ghost function LogsIn(db: Db, lo: int, hi: int): set<Key> {
    set k | k in db && IsLogKey(k) && lo <= IndexOf(k) < hi
  }

  /** A stored index stops the scan before it reaches the stable keys. */
  ghost predicate Blocked(db: Db, min: uint64, max: uint64) {
    exists k :: k in db && IsLogKey(k) && IndexOf(k) >= min && IndexOf(k) > max
  }

  /** The stable keys that the scan runs on into. */
  ghost function StableHits(db: Db, min: uint64, max: uint64): set<Key> {
    if Blocked(db, min, max) then {}
    else set k | k in db && IsStableKey(k) &&
                 forall j | j in db && IsStableKey(j) && !Less(k, j) :: Reading(j) <= max
  }

  /** The keys deleted on account of stable keys. */
  ghost function Strays(db: Db, min: uint64, max: uint64): set<Key> {
    set k | k in StableHits(db, min, max) :: Buffer(k)
  }

  /** The transaction does not fill up on a stable key. */
  ghost predicate FullOnLog(db: Db, min: uint64, max: uint64, t: Txn) {
    DeleteTxn(db, min, max, t).Restart? ==> IsLogKey(Hits(db, min, max)[t.room])
  }

  /** No transaction of the call fills up on a stable key. */
  ghost predicate FullOnlyOnLogs(db: Db, min: uint64, max: uint64, txns: seq<Txn>)
    decreases |txns|
  {
    txns != [] ==>
      && FullOnLog(db, min, max, txns[0])
      && match DeleteTxn(db, min, max, txns[0])
         case Stop(_, _) => true
         case Restart(db', min') => FullOnlyOnLogs(db', min', max, txns[1..])
  }

  lemma LogKeyReading(k: Key)
    requires IsLogKey(k)
    ensures Buffer(k) == k && Reading(k) == IndexOf(k)
  {
    assert Zeros(0) == [];
    assert k + [] == k;
  }

  lemma LogBeforeStable(a: Key, b: Key)
    requires IsLogKey(a) && IsStableKey(b)
    ensures Less(a, b) && !Less(b, a)
  {}

  /** The scan hits exactly the indices in range, and then the stable keys unless it is blocked. */
  lemma HitsAre(db: Db, min: uint64, max: uint64)
    requires WellFormed(db)
    ensures HitSet(db, min, max) == LogsIn(db, min, max + 1) + StableHits(db, min, max)
  {
    LogKeyIndex(min);
    var start := LogKey(min);
    forall k | k in db
      ensures k in HitSet(db, min, max) <==> k in LogsIn(db, min, max + 1) + StableHits(db, min, max)
    {
      LessIrreflexive(k);
      forall j | j in db && IsLogKey(j)
        ensures !Less(j, start) <==> IndexOf(j) >= min
        ensures Reading(j) == IndexOf(j)
        ensures IsLogKey(k) ==> (Less(k, j) <==> IndexOf(k) < IndexOf(j))
        ensures IsStableKey(k) ==> !Less(k, j)
      {
        LogKeyOrder(j, start);
        LogKeyReading(j);
        if IsLogKey(k) { LogKeyOrder(k, j); }
      }
    }
  }

  /** In ascending order, the keys before a log key are the smaller indices of the range. */
  lemma KeysBefore(db: Db, lo: int, hi: int, keys: seq<Key>, r: nat)
    requires Ascending(keys) && r < |keys| && IsLogKey(keys[r])
    requires forall k | k in keys :: k in LogsIn(db, lo, hi) || IsStableKey(k)
    requires forall k | k in LogsIn(db, lo, hi) :: k in keys
    ensures lo <= IndexOf(keys[r]) < hi
    ensures forall k :: k in keys[..r] <==> k in LogsIn(db, lo, IndexOf(keys[r]))
  {
    var c := IndexOf(keys[r]);
    assert keys[r] in keys;
    forall i | 0 <= i < r ensures keys[i] in LogsIn(db, lo, c) {
      assert Less(keys[i], keys[r]);
      if IsStableKey(keys[i]) { LogBeforeStable(keys[r], keys[i]); }
      LogKeyOrder(keys[i], keys[r]);
    }
    forall k | k in LogsIn(db, lo, c) ensures k in keys[..r] {
      assert k in LogsIn(db, lo, hi);
      var i :| 0 <= i < |keys| && keys[i] == k;
      LogKeyOrder(keys[r], k);
    }
  }

  /** A log key is deleted under its own name. */
  lemma LogBuffers(keys: seq<Key>, logs: set<Key>)
    requires forall k :: k in keys <==> k in logs
    requires forall k | k in logs :: IsLogKey(k)
    ensures Buffers(keys) == logs
  {
    forall k | k in logs ensures Buffer(k) == k { LogKeyReading(k); }
    forall k | k in logs ensures k in Buffers(keys) { assert k in keys && Buffer(k) == k; }
  }

  /** The hits before a log key are the smaller indices, and they are deleted under their own keys. */
  lemma HitsBefore(db: Db, min: uint64, max: uint64, hits: seq<Key>, r: nat)
    requires WellFormed(db) && hits == Hits(db, min, max) && r < |hits| && IsLogKey(hits[r])
    ensures min <= IndexOf(hits[r]) <= max && Reading(hits[r]) == IndexOf(hits[r])
    ensures Buffers(hits[..r]) == LogsIn(db, min, IndexOf(hits[r]))
  {
    HitsAre(db, min, max);
    KeysBefore(db, min, max + 1, hits, r);
    LogBuffers(hits[..r], LogsIn(db, min, IndexOf(hits[r])));
    LogKeyReading(hits[r]);
  }

  /** Removing the indices below `c` changes neither the rest of the range nor the stable hits. */
  lemma RemovePrefix(db: Db, min: uint64, max: uint64, c: uint64)
    requires WellFormed(db) && min <= c <= max
    ensures var db' := db - LogsIn(db, min, c);
            && WellFormed(db')
            && (forall hi | c <= hi :: LogsIn(db, min, hi) == LogsIn(db, min, c) + LogsIn(db', c, hi))
            && (Blocked(db', c, max) <==> Blocked(db, min, max))
            && StableHits(db', c, max) == StableHits(db, min, max)
  {
    var db' := db - LogsIn(db, min, c);
    if Blocked(db, min, max) {
      var k :| k in db && IsLogKey(k) && IndexOf(k) >= min && IndexOf(k) > max;
      assert k in db';
    }
    forall hi | c <= hi
      ensures LogsIn(db, min, hi) == LogsIn(db, min, c) + LogsIn(db', c, hi)
    {}
    forall k ensures IsStableKey(k) ==> (k in db <==> k in db') {}
  }

  lemma AllHits(db: Db, min: uint64, max: uint64, hits: seq<Key>)
    requires WellFormed(db) && hits == Hits(db, min, max)
    ensures Buffers(hits) == LogsIn(db, min, max + 1) + Strays(db, min, max)
  {
    HitsAre(db, min, max);
    UnionBuffers(hits, LogsIn(db, min, max + 1), StableHits(db, min, max));
  }

  lemma UnionBuffers(keys: seq<Key>, logs: set<Key>, others: set<Key>)
    requires forall k :: k in keys <==> k in logs + others
    requires forall k | k in logs :: IsLogKey(k)
    ensures Buffers(keys) == logs + set k | k in others :: Buffer(k)
  {
    forall k | k in logs ensures Buffer(k) == k { LogKeyReading(k); }
    forall k | k in logs ensures k in Buffers(keys) { assert k in keys && Buffer(k) == k; }
    forall k | k in others ensures Buffer(k) in Buffers(keys) { assert k in keys; }
  }

  /** Wherever full transactions split the work: an ended call has removed every index in
      [min, max] and, beside them, only the strays; any other call has removed exactly
      the indices of [min, cut). */
  ghost predicate Effect(db: Db, min: uint64, max: uint64, cut: int, outcome: Outcome, db': Db) {
    && (cut == min || min <= cut <= max)
    && (outcome.Done? ==> db' == db - (LogsIn(db, min, max + 1) + Strays(db, min, max)))
    && (!outcome.Done? ==> db' == db - LogsIn(db, min, cut))
  }

  /** Removing the indices below `c` and then working from `c` on is working from `min` on. */
  lemma EffectAfterPrefix(db: Db, min: uint64, max: uint64, c: uint64, cut: int, outcome: Outcome, db': Db)
    requires WellFormed(db) && min <= c <= max
    requires Effect(db - LogsIn(db, min, c), c, max, cut, outcome, db')
    ensures Effect(db, min, max, cut, outcome, db')
  {
    RemovePrefix(db, min, max, c);
    var db1 := db - LogsIn(db, min, c);
    if outcome.Done? {
      MinusMinus(db, LogsIn(db, min, c), LogsIn(db1, c, max + 1) + Strays(db1, c, max));
      assert LogsIn(db, min, max + 1) + Strays(db, min, max)
          == LogsIn(db, min, c) + (LogsIn(db1, c, max + 1) + Strays(db1, c, max));
    } else {
      MinusMinus(db, LogsIn(db, min, c), LogsIn(db1, c, cut));
    }
  }

  /** A transaction that fills up on a log key has removed the smaller indices of the range. */
  lemma RestartStep(db: Db, min: uint64, max: uint64, t: Txn)
    requires WellFormed(db) && FullOnLog(db, min, max, t) && DeleteTxn(db, min, max, t).Restart?
    ensures var c := DeleteTxn(db, min, max, t).min;
            && min <= c <= max
            && DeleteTxn(db, min, max, t).db == db - LogsIn(db, min, c)
            && WellFormed(db - LogsIn(db, min, c))
            && (Blocked(db, min, max) ==> Blocked(db - LogsIn(db, min, c), c, max))
            && (t.room >= 1 ==> LogsIn(db, min, c) != {})
  {
    var hits := Hits(db, min, max);
    HitsBefore(db, min, max, hits, t.room);
    RemovePrefix(db, min, max, IndexOf(hits[t.room]));
    if t.room >= 1 {
      assert hits[0] in hits[..t.room];
      assert Buffer(hits[0]) in Buffers(hits[..t.room]);
    }
  }

  lemma StopStep(db: Db, min: uint64, max: uint64, t: Txn)
    requires WellFormed(db) && DeleteTxn(db, min, max, t).Stop?
    ensures var step := DeleteTxn(db, min, max, t); Effect(db, min, max, min, step.outcome, step.db)
  {
    assert db - LogsIn(db, min, min) == db;
    AllHits(db, min, max, Hits(db, min, max));
  }

  lemma {:induction false} DeleteEffect(db: Db, min: uint64, max: uint64, txns: seq<Txn>) returns (cut: int)
    requires WellFormed(db) && FullOnlyOnLogs(db, min, max, txns)
    ensures var (outcome, db') := DeleteRun(db, min, max, txns);
            Effect(db, min, max, cut, outcome, db')
    decreases |txns|
  {
    cut := min;
    if txns == [] {
      assert db - LogsIn(db, min, min) == db;
    } else {
      match DeleteTxn(db, min, max, txns[0])
      case Stop(_, _) =>
        StopStep(db, min, max, txns[0]);
      case Restart(db1, c) =>
        RestartStep(db, min, max, txns[0]);
        cut := DeleteEffect(db1, c, max, txns[1..]);
        var (outcome, db') := DeleteRun(db1, c, max, txns[1..]);
        EffectAfterPrefix(db, min, max, c, cut, outcome, db');
    }
  }

  lemma MinusMinus(db: Db, a: set<Key>, b: set<Key>)
    ensures db - a - b == db - (a + b)
  {}

  // ---- what the strays can be ----

  lemma {:induction false} PadMonotone(a: Key, b: Key, n: nat)
    requires |a| <= n && |b| <= n && !Less(b, a)
    ensures !Less(b + Zeros(n - |b|), a + Zeros(n - |a|))
  {
    var pa, pb := a + Zeros(n - |a|), b + Zeros(n - |b|);
    if a == [] {
      assert pa == Zeros(n);
      NotBelowZeros(pb, n);
    } else {
      assert pa[1..] == a[1..] + Zeros(n - |a|) && pb[1..] == b[1..] + Zeros(n - |b|);
      if a[0] == b[0] { PadMonotone(a[1..], b[1..], n - 1); }
    }
  }

  lemma {:induction false} NotBelowZeros(b: Key, n: nat)
    requires |b| == n
    ensures !Less(b, Zeros(n))
  {
    if n > 0 {
      assert Zeros(n)[1..] == Zeros(n - 1);
      NotBelowZeros(b[1..], n - 1);
    }
  }

  lemma ZeroIndex()
    ensures BytesToUint64(Zeros(8)) == 0 && LogKey(0) == Zeros(9)
  {
    NotBelowZeros(Uint64ToBytes(0), 8);
    Uint64RoundTrip(0, Zeros(8));
    OrderIsNumeric(Uint64ToBytes(0), Zeros(8));
  }

  /** Stable keys that fit the buffer read in their own order; a longer one reads as 0. */
  lemma ReadingMonotone(j: Key, k: Key)
    requires IsStableKey(j) && IsStableKey(k) && |k| <= 9 && !Less(k, j)
    ensures Reading(j) <= Reading(k)
  {
    if |j| <= 9 {
      PadMonotone(j, k, 9);
      var a, b := Buffer(k), Buffer(j);
      assert a[0] == b[0] == 1;
      OrderIsNumeric(a[1..], b[1..]);
    } else {
      assert Zeros(9)[1..] == Zeros(8);
      ZeroIndex();
    }
  }

  /** The condition under which a call that ends, and fills up only on log keys, removes nothing
      but the range: an index past the range blocks the scan, or no eight-byte stable name reads
      as an index up to `max`, and no longer name scanned while index 0 is stored below the range. */
  ghost predicate Harmless(db: Db, min: uint64, max: uint64) {
    || Blocked(db, min, max)
    || (&& (forall k | k in db && IsStableKey(k) && |k| == 9 :: Reading(k) > max)
        && (min == 0 || LogKey(0) !in db || forall k | k in StableHits(db, min, max) :: |k| <= 9))
  }

  /** Beside the range, DeleteRange can remove only index 0 and eight-byte stable names that
      read as an index up to `max`. */
  lemma StraysAre(db: Db, min: uint64, max: uint64, b: Key)
    requires b in Strays(db, min, max)
    ensures b == LogKey(0) || (IsStableKey(b) && |b| == 9 && Reading(b) <= max)
  {
    var k :| k in StableHits(db, min, max) && b == Buffer(k);
    LessIrreflexive(k);
    if |k| <= 9 {
      assert b + Zeros(0) == b;
    } else {
      ZeroIndex();
    }
  }

  /** An eight-byte name that reads up to `max` is scanned unless the scan is blocked. */
  lemma EightByteNameIsHit(db: Db, min: uint64, max: uint64, k: Key)
    requires k in db && IsStableKey(k) && |k| == 9 && Reading(k) <= max && !Blocked(db, min, max)
    ensures k in StableHits(db, min, max) && k in Strays(db, min, max)
  {
    forall j | j in db && IsStableKey(j) && !Less(k, j) ensures Reading(j) <= max {
      ReadingMonotone(j, k);
    }
    assert k + Zeros(0) == k;
  }

  lemma HarmlessStrays(db: Db, min: uint64, max: uint64)
    requires Harmless(db, min, max)
    ensures forall b | b in Strays(db, min, max) && b in db :: b in LogsIn(db, min, max + 1)
  {
    LogKeyIndex(0);
    forall b | b in Strays(db, min, max) && b in db ensures b in LogsIn(db, min, max + 1) {
      StraysAre(db, min, max, b);
      var k :| k in StableHits(db, min, max) && b == Buffer(k);
    }
  }

  lemma HarmfulStray(db: Db, min: uint64, max: uint64) returns (b: Key)
    requires !Harmless(db, min, max)
    ensures b in db && b in Strays(db, min, max) && b !in LogsIn(db, min, max + 1)
  {
    if k :| k in db && IsStableKey(k) && |k| == 9 && Reading(k) <= max {
      EightByteNameIsHit(db, min, max, k);
      b := k;
    } else {
      var k :| k in StableHits(db, min, max) && |k| > 9;
      ZeroIndex();
      LogKeyIndex(0);
      b := LogKey(0);
      assert b == Buffer(k);
    }
  }

  /** A call that ends, and filled up only on log keys, has removed exactly the stored indices in
      [min, max] if and only if the store was harmless to begin with. */
  lemma DeleteExactIff(db: Db, min: uint64, max: uint64, txns: seq<Txn>)
    requires WellFormed(db) && FullOnlyOnLogs(db, min, max, txns)
    requires DeleteRun(db, min, max, txns).0.Done?
    ensures DeleteRun(db, min, max, txns).1 == db - LogsIn(db, min, max + 1) <==> Harmless(db, min, max)
  {
    var _ := DeleteEffect(db, min, max, txns);
    var logs, strays := LogsIn(db, min, max + 1), Strays(db, min, max);
    if Harmless(db, min, max) {
      HarmlessStrays(db, min, max);
      assert db - (logs + strays) == db - logs;
    } else {
      var b := HarmfulStray(db, min, max);
      assert b in db - logs && b !in db - (logs + strays);
    }
  }

  /** An index stored past the range keeps every transaction off the stable keys. */
  lemma BlockedStep(db: Db, min: uint64, max: uint64, t: Txn)
    requires WellFormed(db) && Blocked(db, min, max)
    ensures FullOnLog(db, min, max, t)
  {
    var hits := Hits(db, min, max);
    if |hits| > t.room {
      HitsAre(db, min, max);
      assert hits[t.room] in HitSet(db, min, max);
    }
  }

  lemma {:induction false} BlockedStaysOnLogs(db: Db, min: uint64, max: uint64, txns: seq<Txn>)
    requires WellFormed(db) && Blocked(db, min, max)
    ensures FullOnlyOnLogs(db, min, max, txns)
    decreases |txns|
  {
    if txns != [] {
      BlockedStep(db, min, max, txns[0]);
      match DeleteTxn(db, min, max, txns[0])
      case Stop(_, _) =>
      case Restart(db1, c) =>
        RestartStep(db, min, max, txns[0]);
        BlockedStaysOnLogs(db1, c, max, txns[1..]);
    }
  }

  /** On a harmless store, with no transaction filling up on a stable key: an ended call has
      removed exactly the stored indices in [min, max], any other call exactly those below some cut. */
  lemma DeleteHarmless(db: Db, min: uint64, max: uint64, txns: seq<Txn>) returns (cut: int)
    requires WellFormed(db) && Harmless(db, min, max) && FullOnlyOnLogs(db, min, max, txns)
    ensures DeleteRun(db, min, max, txns).1 == db - LogsIn(db, min, cut)
    ensures if DeleteRun(db, min, max, txns).0.Done? then cut == max + 1 else cut == min || min <= cut <= max
  {
    cut := DeleteEffect(db, min, max, txns);
    if DeleteRun(db, min, max, txns).0.Done? {
      DeleteExactIff(db, min, max, txns);
      cut := max + 1;
    }
  }

  /** With an index stored past the range the same holds however the work is split. */
  lemma DeleteBlocked(db: Db, min: uint64, max: uint64, txns: seq<Txn>) returns (cut: int)
    requires WellFormed(db) && Blocked(db, min, max)
    ensures DeleteRun(db, min, max, txns).1 == db - LogsIn(db, min, cut)
    ensures if DeleteRun(db, min, max, txns).0.Done? then cut == max + 1 else cut == min || min <= cut <= max
  {
    BlockedStaysOnLogs(db, min, max, txns);
    cut := DeleteHarmless(db, min, max, txns);
  }

  // ---- termination ----

  /** Every transaction takes its first write and commits. */
  ghost predicate Progressing(txns: seq<Txn>) {
    forall t | t in txns :: t.room >= 1 && t.limit.TooBig? && t.commits
  }

  /** Removing the indices below `c`, when there are any, leaves fewer in range. */
  lemma FewerInRange(db: Db, min: uint64, max: uint64, c: uint64)
    requires WellFormed(db) && min <= c <= max && LogsIn(db, min, c) != {}
    ensures |LogsIn(db - LogsIn(db, min, c), c, max + 1)| < |LogsIn(db, min, max + 1)|
  {
    RemovePrefix(db, min, max, c);
    var low, rest := LogsIn(db, min, c), LogsIn(db - LogsIn(db, min, c), c, max + 1);
    assert LogsIn(db, min, max + 1) == low + rest && low !! rest;
  }

  /** If the first write of a fresh transaction always fits, a blocked call ends after at most one
      transaction more than there are stored indices in range. */
  lemma {:induction false} DeleteFinishes(db: Db, min: uint64, max: uint64, txns: seq<Txn>)
    requires WellFormed(db) && Blocked(db, min, max)
    requires Progressing(txns) && |txns| > |LogsIn(db, min, max + 1)|
    ensures DeleteRun(db, min, max, txns).0.Done?
    decreases |txns|
  {
    assert txns[0] in txns;
    assert forall t | t in txns[1..] :: t in txns;
    BlockedStep(db, min, max, txns[0]);
    match DeleteTxn(db, min, max, txns[0])
    case Stop(_, _) =>
    case Restart(db1, c) =>
      RestartStep(db, min, max, txns[0]);
      FewerInRange(db, min, max, c);
      DeleteFinishes(db1, c, max, txns[1..]);
  }

  /** No index is stored past the range, and the scan runs into a stable name that is not eight bytes
      long, so that deleting its buffer does not remove it, and then into another key that deleting
      its buffer does not remove either. */
  ghost predicate Restless(db: Db, max: uint64) {
    exists a, b :: RestlessPair(db, max, a, b)
  }

  ghost predicate RestlessPair(db: Db, max: uint64, a: Key, b: Key) {
    && a in StableHits(db, 0, max) && b in StableHits(db, 0, max)
    && |a| != 9 && Less(a, b) && b != Buffer(a)
  }

  /** With nothing stored past the range, the stable hits do not depend on where the scan starts. */
  lemma AnyStart(db: Db, min: uint64, max: uint64)
    requires !Blocked(db, 0, max) || min <= max
    ensures Blocked(db, min, max) <==> Blocked(db, 0, max)
    ensures StableHits(db, min, max) == StableHits(db, 0, max)
  {
    if k :| k in db && IsLogKey(k) && IndexOf(k) >= min && IndexOf(k) > max {
      assert Blocked(db, 0, max);
    }
  }

  /** A transaction removes only keys that read like a hit; index 0 is one of them. */
  lemma RemovedReading(db: Db, min: uint64, max: uint64, keys: seq<Key>, b: Key)
    requires forall k | k in keys :: k in HitSet(db, min, max)
    requires b in Buffers(keys) && (IsStableKey(b) || IsLogKey(b))
    ensures Reading(b) <= max
  {
    var k :| k in keys && b == Buffer(k);
    LessIrreflexive(k);
    if |k| <= 9 {
      assert b + Zeros(0) == b;
    } else {
      LogKeyReading(b);
      ZeroIndex();
      assert Zeros(9)[1..] == Zeros(8);
    }
  }

  /** What a restart leaves: everything past the range, and of the stable hits those not removed. */
  lemma HitsAfter(db: Db, max: uint64, gone: set<Key>)
    requires forall b | b in gone && (IsStableKey(b) || IsLogKey(b)) :: Reading(b) <= max
    ensures Blocked(db - gone, 0, max) <==> Blocked(db, 0, max)
    ensures StableHits(db - gone, 0, max) == StableHits(db, 0, max) - gone
  {
    var db' := db - gone;
    assert forall j :: j in db' <==> j in db && j !in gone;
    if k :| k in db && IsLogKey(k) && IndexOf(k) > max {
      LogKeyReading(k);
      assert k in db';
    }
    forall k | k in db' && IsStableKey(k)
      ensures k in StableHits(db', 0, max) <==> k in StableHits(db, 0, max)
    {
      assert k in StableHits(db', 0, max) ==>
          forall j | j in db && IsStableKey(j) && !Less(k, j) :: Reading(j) <= max;
    }
  }

  /** One restart in terms of the hits. */
  lemma AfterRestart(db: Db, min: uint64, max: uint64, hits: seq<Key>, r: nat)
    requires WellFormed(db) && hits == Hits(db, min, max) && r < |hits|
    ensures Reading(hits[r]) <= max
    ensures WellFormed(db - Buffers(hits[..r]))
    ensures StableHits(db - Buffers(hits[..r]), 0, max) == StableHits(db, 0, max) - Buffers(hits[..r])
  {
    assert hits[r] in HitSet(db, min, max);
    LessIrreflexive(hits[r]);
    var gone := Buffers(hits[..r]);
    forall b | b in gone && (IsStableKey(b) || IsLogKey(b)) ensures Reading(b) <= max {
      RemovedReading(db, min, max, hits[..r], b);
    }
    HitsAfter(db, max, gone);
    assert forall k | k in db - gone :: k in db && (db - gone)[k] == db[k];
  }

  /** The first hit is the least one, and a log key if any hit is. */
  lemma FirstHit(db: Db, min: uint64, max: uint64, hits: seq<Key>)
    requires WellFormed(db) && hits == Hits(db, min, max) && |hits| > 0
    ensures hits[0] in LogsIn(db, min, max + 1) || hits[0] in StableHits(db, min, max)
    ensures IsStableKey(hits[0]) ==> forall k | k in hits :: k in StableHits(db, min, max)
  {
    HitsAre(db, min, max);
    assert hits[0] in HitSet(db, min, max);
    forall k | k in hits && IsStableKey(hits[0]) ensures k in StableHits(db, min, max) {
      assert k in HitSet(db, min, max);
      if IsLogKey(k) { LogBeforeStable(k, hits[0]); }
      var i :| 0 <= i < |hits| && hits[i] == k;
    }
  }

  /** Unless the call is restless, a transaction that took a write has removed a key. */
  lemma RestartRemoves(db: Db, min: uint64, max: uint64, hits: seq<Key>, r: nat)
    requires WellFormed(db) && min <= max && !Restless(db, max)
    requires hits == Hits(db, min, max) && 1 <= r < |hits|
    ensures Buffer(hits[0]) in db && Buffer(hits[0]) in Buffers(hits[..r])
  {
    AnyStart(db, min, max);
    FirstHit(db, min, max, hits);
    assert hits[0] in hits[..r];
    assert hits[0] in hits && hits[1] in hits && Less(hits[0], hits[1]);
    if IsLogKey(hits[0]) {
      LogKeyReading(hits[0]);
    } else if |hits[0]| == 9 {
      assert hits[0] + Zeros(0) == hits[0];
    } else {
      assert !RestlessPair(db, max, hits[0], hits[1]);
    }
  }

  lemma CalmStep(db: Db, min: uint64, max: uint64, t: Txn)
    requires WellFormed(db) && !Restless(db, max) && t.room >= 1 && DeleteTxn(db, min, max, t).Restart?
    ensures var step := DeleteTxn(db, min, max, t);
            && WellFormed(step.db) && step.min <= max && !Restless(step.db, max)
            && |step.db| <= |db| && (min <= max ==> |step.db| < |db|)
  {
    var hits := Hits(db, min, max);
    var step := DeleteTxn(db, min, max, t);
    AfterRestart(db, min, max, hits, t.room);
    Subset(step.db.Keys, db.Keys);
    if min <= max {
      RestartRemoves(db, min, max, hits, t.room);
      Smaller(db, Buffers(hits[..t.room]), Buffer(hits[0]));
    }
    forall a, b ensures !RestlessPair(step.db, max, a, b) {
      assert !RestlessPair(db, max, a, b);
    }
  }

  lemma Smaller(db: Db, gone: set<Key>, b: Key)
    requires b in db && b in gone
    ensures |db - gone| < |db|
  {
    assert (db - gone).Keys <= db.Keys - {b};
    Subset((db - gone).Keys, db.Keys - {b});
  }

  lemma RestlessStep(db: Db, min: uint64, max: uint64)
    requires WellFormed(db) && Restless(db, max)
    ensures var step := DeleteTxn(db, min, max, Txn(1, TooBig, true));
            step.Restart? && WellFormed(step.db) && Restless(step.db, max)
  {
    RestlessHits(db, min, max, Hits(db, min, max));
  }

  lemma RestlessHits(db: Db, min: uint64, max: uint64, hits: seq<Key>)
    requires WellFormed(db) && Restless(db, max) && hits == Hits(db, min, max)
    ensures |hits| > 1 && WellFormed(db - Buffers(hits[..1])) && Restless(db - Buffers(hits[..1]), max)
  {
    var a, b :| RestlessPair(db, max, a, b);
    TwoHits(db, min, max, hits, a, b);
    AfterRestart(db, min, max, hits, 1);
    OneBuffer(hits);
    StillRestless(db, max, hits[0], a, b);
  }

  /** Deleting the buffer of a first hit `h` leaves a restless pair. */
  lemma StillRestless(db: Db, max: uint64, h: Key, a: Key, b: Key)
    requires RestlessPair(db, max, a, b) && (IsLogKey(h) || h in StableHits(db, 0, max)) && (h == a || Less(h, a))
    requires StableHits(db - {Buffer(h)}, 0, max) == StableHits(db, 0, max) - {Buffer(h)}
    ensures Restless(db - {Buffer(h)}, max)
  {
    var db1 := db - {Buffer(h)};
    if b == Buffer(h) {
      ShortFirst(h, a, b);
      assert RestlessPair(db1, max, h, a);
    } else {
      assert |Buffer(h)| == 9;
      assert RestlessPair(db1, max, a, b);
    }
  }

  lemma OneBuffer(hits: seq<Key>)
    requires |hits| >= 1
    ensures Buffers(hits[..1]) == {Buffer(hits[0])}
  {
    assert hits[..1] == [hits[0]];
    assert hits[0] in hits[..1];
  }

  lemma TwoHits(db: Db, min: uint64, max: uint64, hits: seq<Key>, a: Key, b: Key)
    requires WellFormed(db) && hits == Hits(db, min, max)
    requires RestlessPair(db, max, a, b)
    ensures |hits| > 1
    ensures hits[0] == a || Less(hits[0], a)
    ensures IsLogKey(hits[0]) || hits[0] in StableHits(db, 0, max)
  {
    AnyStart(db, min, max);
    HitsAre(db, min, max);
    assert a in hits && b in hits;
    LessIrreflexive(a);
    assert hits[0] in HitSet(db, min, max);
  }

  /** If the first hit deletes `b`, then it is itself a short name, before `a` and apart from it. */
  lemma ShortFirst(h: Key, a: Key, b: Key)
    requires IsLogKey(h) || IsStableKey(h)
    requires IsStableKey(b) && b == Buffer(h) && b != Buffer(a) && |a| != 9 && Less(a, b)
    requires h == a || Less(h, a)
    ensures IsStableKey(h) && |h| < 9 && Less(h, a) && a != Buffer(h)
  {
    if |h| == 9 {
      assert h + Zeros(0) == h;
      LessAsymmetric(a, b);
    }
  }

  /** The call may restart for ever if it is restless: a transaction with room for one write never
      gets it to its end. */
  lemma {:induction false} DeleteNeverEnds(db: Db, min: uint64, max: uint64, txns: seq<Txn>)
    requires WellFormed(db) && Restless(db, max)
    requires forall t | t in txns :: t == Txn(1, TooBig, true)
    ensures DeleteRun(db, min, max, txns).0.Running?
    decreases |txns|
  {
    if txns != [] {
      assert txns[0] in txns;
      assert forall t | t in txns[1..] :: t in txns;
      RestlessStep(db, min, max);
      var step := DeleteTxn(db, min, max, txns[0]);
      DeleteNeverEnds(step.db, step.min, max, txns[1..]);
    }
  }

  /** Otherwise it ends, whatever room its transactions have, after at most one transaction more
      than there are keys, or two more if it is given an empty range. */
  lemma {:induction false} DeleteEnds(db: Db, min: uint64, max: uint64, txns: seq<Txn>)
    requires WellFormed(db) && !Restless(db, max)
    requires Progressing(txns) && |txns| > |db| + if min <= max then 0 else 1
    ensures DeleteRun(db, min, max, txns).0.Done?
    decreases |txns|
  {
    assert txns[0] in txns;
    assert forall t | t in txns[1..] :: t in txns;
    if DeleteTxn(db, min, max, txns[0]).Restart? {
      CalmStep(db, min, max, txns[0]);
      var step := DeleteTxn(db, min, max, txns[0]);
      DeleteEnds(step.db, step.min, max, txns[1..]);
    }
  }

  /** DeleteRange ends within some number of transactions, whatever room for at least one write
      they have, if and only if its scan is not restless. */
  lemma DeleteEndsIff(db: Db, min: uint64, max: uint64)
    requires WellFormed(db)
    ensures !Restless(db, max) <==>
            exists n: nat :: EndsWithin(db, min, max, n)
  {
    if Restless(db, max) {
      forall n: nat ensures !EndsWithin(db, min, max, n) {
        var txns := seq(n, _ => Txn(1, TooBig, true));
        DeleteNeverEnds(db, min, max, txns);
        assert Progressing(txns) && |txns| == n;
      }
    } else {
      forall txns: seq<Txn> | Progressing(txns) && |txns| == |db| + 2
        ensures DeleteRun(db, min, max, txns).0.Done?
      {
        DeleteEnds(db, min, max, txns);
      }
      assert EndsWithin(db, min, max, |db| + 2);
    }
  }

  ghost predicate EndsWithin(db: Db, min: uint64, max: uint64, n: nat) {
    forall txns: seq<Txn> | Progressing(txns) && |txns| == n :: DeleteRun(db, min, max, txns).0.Done?
  }

  lemma Subset<T>(a: set<T>, b: set<T>)
    requires a <= b
    ensures |a| <= |b|
  {
    assert b == a + (b - a);
  }
}
