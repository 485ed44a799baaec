/** FirstIndex and LastIndex: what the two ends of the key order say about the stored indices. */
module LogIndex {
  import opened Bytes
  import opened Badger
  import opened LogStore

  /** The key LastIndex seeks to: the log prefix and seven, not eight, 0xff bytes. */
  const SEEK_LAST: Key := [0, 0xff, 0xff, 0xff, 0xff, 0xff, 0xff, 0xff]

  /** The index under the first key that is not before the log prefix, if that is a log key. */
  ghost function FirstIndexOf(db: Db): uint64 {
    var items := Sorted(AtLeast(db.Keys, [0]));
    if items != [] && IsLogKey(items[0]) then IndexOf(items[0]) else 0
  }

  /** The index under the last key that is not after `SEEK_LAST`, if that is a log key. */
  ghost function LastIndexOf(db: Db): uint64 {
    var items := Sorted(AtMost(db.Keys, SEEK_LAST));
    if items != [] && IsLogKey(items[|items| - 1]) then IndexOf(items[|items| - 1]) else 0
  }

  ghost predicate IsFirst(i: uint64, indices: set<uint64>) {
    if indices == {} then i == 0 else i in indices && forall j | j in indices :: i <= j
  }

  ghost predicate IsLast(i: uint64, indices: set<uint64>) {
    if indices == {} then i == 0 else i in indices && forall j | j in indices :: j <= i
  }

  /** The indices that LastIndex can see. */
  ghost function Visible(indices: set<uint64>): set<uint64> {
    set i | i in indices && i < LAST_LIMIT
  }

  /** In an ascending sequence that holds a log key, the first key is the least index. */
  lemma FirstOf(items: seq<Key>, k: Key)
    requires Ascending(items) && k in items && IsLogKey(k)
    requires IsLogKey(items[0]) || IsStableKey(items[0])
    ensures IsLogKey(items[0]) && IndexOf(items[0]) <= IndexOf(k)
  {
    var i :| 0 <= i < |items| && items[i] == k;
    if i > 0 {
      assert Less(items[0], k);
      LogKeyOrder(items[0], k);
    }
  }

  lemma LastOf(items: seq<Key>, k: Key)
    requires Ascending(items) && k in items && IsLogKey(k) && IsLogKey(items[|items| - 1])
    ensures IndexOf(k) <= IndexOf(items[|items| - 1])
  {
    var i :| 0 <= i < |items| && items[i] == k;
    if i < |items| - 1 { LogKeyOrder(k, items[|items| - 1]); }
  }

  /** FirstIndex is the least stored index, and 0 when there is none. */
  lemma FirstIsLeast(db: Db)
    requires WellFormed(db)
    ensures IsFirst(FirstIndexOf(db), Indices(db))
  {
    var s := AtLeast(db.Keys, [0]);
    assert s == db.Keys by {
      forall k | k in db ensures !Less(k, [0]) { assert [0][1..] == []; }
    }
    var items := Sorted(s);
    if items != [] {
      assert items[0] in items;
      if IsLogKey(items[0]) { assert IndexOf(items[0]) in Indices(db); }
      forall k | k in db && IsLogKey(k) ensures IsLogKey(items[0]) && IndexOf(items[0]) <= IndexOf(k) {
        FirstOf(items, k);
      }
    }
  }

  lemma {:induction false} LessExtended(a: Key, b: Key, x: byte)
    requires |a| == |b|
    ensures Less(a, b + [x]) <==> !Less(b, a)
  {
    if a != [] {
      assert (b + [x])[1..] == b[1..] + [x];
      LessExtended(a[1..], b[1..], x);
    }
  }

  function Ones(n: nat): (b: Key)
    ensures |b| == n
  {
    if n == 0 then [] else Ones(n - 1) + [0xff]
  }

  lemma {:induction false} OnesIsMax(n: nat)
    ensures FromBytes(Ones(n)) == Pow256(n) - 1
  {
    if n > 0 {
      OnesIsMax(n - 1);
      assert Ones(n)[..n - 1] == Ones(n - 1);
    }
  }

  lemma SeekLastIs()
    ensures SEEK_LAST == [0] + Ones(7) && FromBytes(Ones(7)) == LAST_LIMIT / 256
  {
    assert Ones(4) == [0xff, 0xff, 0xff, 0xff];
    assert Ones(7) == Ones(4) + [0xff, 0xff, 0xff];
    OnesIsMax(7);
    Pow256Of8();
  }

  /** A log key is within reach of LastIndex exactly when its index is below 2^64 - 256. */
  lemma SeekLastReach(k: Key)
    requires IsLogKey(k)
    ensures !Less(SEEK_LAST, k) <==> IndexOf(k) < LAST_LIMIT
  {
    SeekLastIs();
    var high, x := k[1..8], k[8];
    assert k == [0] + (high + [x]);
    LessPrefixed([0], Ones(7), high + [x]);
    LessExtended(Ones(7), high, x);
    OrderIsNumeric(high, Ones(7));
    assert k[1..] == high + [x] && (high + [x])[..7] == high;
    assert IndexOf(k) == FromBytes(high) * 256 + x;
  }

  /** LastIndex is the greatest stored index below 2^64 - 256, and 0 when there is none. */
  lemma LastIsGreatest(db: Db)
    requires WellFormed(db)
    ensures IsLast(LastIndexOf(db), Visible(Indices(db)))
  {
    var s := AtMost(db.Keys, SEEK_LAST);
    var items := Sorted(s);
    forall k | k in db ensures k in items <==> IsLogKey(k) && IndexOf(k) < LAST_LIMIT {
      if IsLogKey(k) { SeekLastReach(k); }
    }
    if items != [] {
      var last := items[|items| - 1];
      assert last in s && last in items;
      assert IndexOf(last) in Visible(Indices(db));
      forall k | k in items ensures IndexOf(k) <= IndexOf(last) {
        LastOf(items, k);
      }
    }
  }

  lemma LastVisible(i: uint64, indices: set<uint64>)
    requires IsLast(i, Visible(indices))
    ensures IsLast(i, indices) <==> forall j | j in indices :: j < LAST_LIMIT
  {
    assert i < LAST_LIMIT;
    if forall j | j in indices :: j < LAST_LIMIT {
      assert Visible(indices) == indices;
    }
  }

  /** LastIndex is the greatest stored index if and only if none is stored from 2^64 - 256 on. */
  lemma LastExactIff(db: Db)
    requires WellFormed(db)
    ensures IsLast(LastIndexOf(db), Indices(db)) <==> forall i | i in Indices(db) :: i < LAST_LIMIT
  {
    LastIsGreatest(db);
    LastVisible(LastIndexOf(db), Indices(db));
  }

  lemma LastAtSeek(db: Db, items: seq<Key>, p: nat)
    requires p <= |items| && Sorted(AtMost(db.Keys, SEEK_LAST)) == items[..p]
    ensures LastIndexOf(db) == if p > 0 && IsLogKey(items[p - 1]) then IndexOf(items[p - 1]) else 0
  {}
}
