/** The key layout of raft/badger_store.go and, for each operation of the store, the database it
    leaves behind as a function of the database it found. */
module LogStore {
  import opened Bytes
  import opened Badger

  /** A Raft log entry; everything but its index is opaque here. */
  datatype Log = Log(index: uint64, data: seq<byte>)

  /** A stored value: an encoded log entry, or the bytes of a stable value. */
  datatype Value = Entry(log: Log) | Raw(bytes: seq<byte>)

  type Db = map<Key, Value>

  /** Indices from here on are past the key that LastIndex seeks to. */
  const LAST_LIMIT: uint64 := TWO_64 - 256

  function LogKey(i: uint64): Key { [0] + Uint64ToBytes(i) }
  function StableKey(name: Key): Key { [1] + name }

  predicate IsLogKey(k: Key) { |k| == 9 && k[0] == 0 }
  predicate IsStableKey(k: Key) { |k| >= 1 && k[0] == 1 }

  function IndexOf(k: Key): uint64
    requires IsLogKey(k)
  {
    BytesToUint64(k[1..])
  }

  /** A value of the kind that the store's operations write under a key. */
  ghost predicate Fits(k: Key, v: Value) {
    || (IsLogKey(k) && v.Entry? && v.log.index == IndexOf(k))
    || (IsStableKey(k) && v.Raw?)
  }

  /** Only the store's own operations write the database. */
  ghost predicate WellFormed(db: Db) {
    forall k | k in db :: Fits(k, db[k])
  }

  lemma LogKeyIndex(i: uint64)
    ensures IsLogKey(LogKey(i)) && IndexOf(LogKey(i)) == i
  {
    Uint64RoundTrip(i, Uint64ToBytes(i));
    assert LogKey(i)[1..] == Uint64ToBytes(i);
  }

  lemma IndexLogKey(k: Key)
    requires IsLogKey(k)
    ensures LogKey(IndexOf(k)) == k
  {
    Uint64RoundTrip(0, k[1..]);
    assert k == [0] + k[1..];
  }

  lemma LogKeyOrder(a: Key, b: Key)
    requires IsLogKey(a) && IsLogKey(b)
    ensures Less(a, b) <==> IndexOf(a) < IndexOf(b)
  {
    OrderIsNumeric(a[1..], b[1..]);
  }

  /** The stored indices. */
  ghost function Indices(db: Db): set<uint64> {
    set k | k in db && IsLogKey(k) :: IndexOf(k)
  }

  lemma IndexStored(db: Db, i: uint64)
    ensures i in Indices(db) <==> LogKey(i) in db
  {
    LogKeyIndex(i);
    if i in Indices(db) {
      var k :| k in db && IsLogKey(k) && IndexOf(k) == i;
      IndexLogKey(k);
    }
  }

  // ---- StoreLogs ----

  /** The entries written one by one; a later entry replaces an earlier one of the same index. */
  function PutAll(db: Db, logs: seq<Log>): Db {
    if logs == [] then db
    else
      var last := logs[|logs| - 1];
      PutAll(db, logs[..|logs| - 1])[LogKey(last.index) := Entry(last)]
  }

  function StoreRun(db: Db, logs: seq<Log>, txns: seq<Txn>): (Outcome, Db)
    decreases |txns|
  {
    if txns == [] then (Running, db)
    else
      var t := txns[0];
      if |logs| > t.room && t.limit.Fault? then (Failed, db)
      else if !t.commits then (Failed, db)
      else if |logs| > t.room then StoreRun(PutAll(db, logs[..t.room]), logs[t.room..], txns[1..])
      else (Done, PutAll(db, logs))
  }

  // ---- DeleteRange ----

  function Zeros(n: nat): (z: Key)
    ensures |z| == n && forall i | 0 <= i < n :: z[i] == 0
  {
    seq(n, _ => 0)
  }

  /** The nine-byte buffer that DeleteRange copies a key into: a shorter key leaves zeros behind
      it, a longer one does not fit and leaves the buffer all zero. */
  function Buffer(k: Key): (b: Key)
    ensures |b| == 9
  {
    if |k| <= 9 then k + Zeros(9 - |k|) else Zeros(9)
  }

  function Buffers(keys: seq<Key>): set<Key> {
    set k | k in keys :: Buffer(k)
  }

  /** The index DeleteRange takes a key to stand for. */
  function Reading(k: Key): uint64 { BytesToUint64(Buffer(k)[1..]) }

  /** The keys on which DeleteRange issues a delete: from the key of `min` on, up to the first
      one that reads above `max`, whatever prefix they carry. */
  ghost function HitSet(db: Db, min: uint64, max: uint64): set<Key> {
    set k | k in db && !Less(k, LogKey(min)) &&
            forall j | j in db && !Less(j, LogKey(min)) && !Less(k, j) :: Reading(j) <= max
  }

  ghost function Hits(db: Db, min: uint64, max: uint64): seq<Key> {
    Sorted(HitSet(db, min, max))
  }

  /** What one transaction of DeleteRange leads to: the call stops, or starts over from `min`. */
  datatype Step = Stop(outcome: Outcome, db: Db) | Restart(db: Db, min: uint64)

  ghost function DeleteTxn(db: Db, min: uint64, max: uint64, t: Txn): Step {
    var hits := Hits(db, min, max);
    if |hits| > t.room && t.limit.Fault? then Stop(Failed, db)
    else if !t.commits then Stop(Failed, db)
    else if |hits| > t.room then Restart(db - Buffers(hits[..t.room]), Reading(hits[t.room]))
    else Stop(Done, db - Buffers(hits))
  }

  ghost function DeleteRun(db: Db, min: uint64, max: uint64, txns: seq<Txn>): (Outcome, Db)
    decreases |txns|
  {
    if txns == [] then (Running, db)
    else
      match DeleteTxn(db, min, max, txns[0])
      case Stop(outcome, db') => (outcome, db')
      case Restart(db', min') => DeleteRun(db', min', max, txns[1..])
  }
}
