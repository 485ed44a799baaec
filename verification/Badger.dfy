/** Badger as the store sees it: an ordered map of byte strings, transactions that may fill
    up or fail, and iterators over a sorted snapshot of the keys. */
module Badger {
  import opened Bytes

  /** Why a transaction stops taking writes: it is full, or the write fails for another reason. */
  datatype Limit = TooBig | Fault

  /** What the environment grants one transaction: it takes `room` writes, answers `limit` to the
      next one, and its commit either takes effect as a whole (`commits`) or not at all. */
  datatype Txn = Txn(room: nat, limit: Limit, commits: bool)

  /** How a call ends. A call that restarts itself uses up one transaction per restart;
      `Running` means that it has used up all that were granted and has not ended yet. */
  datatype Outcome = Done | Failed | Running

  predicate Ascending(items: seq<Key>) {
    forall i, j :: 0 <= i < j < |items| ==> Less(items[i], items[j])
  }

  ghost predicate IsLeast(m: Key, s: set<Key>) {
    m in s && forall k | k in s :: k == m || Less(m, k)
  }

  lemma {:induction false} LeastExists(s: set<Key>)
    requires s != {}
    ensures exists m :: IsLeast(m, s)
  {
    var x :| x in s;
    if s == {x} {
      assert IsLeast(x, s);
    } else {
      assert s == {x} + (s - {x});
      LeastExists(s - {x});
      var y :| IsLeast(y, s - {x});
      LessTotal(x, y);
      if Less(x, y) {
        forall k | k in s ensures k == x || Less(x, k) {
          if k != x && k != y { LessTransitive(x, y, k); }
        }
        assert IsLeast(x, s);
      } else {
        assert IsLeast(y, s);
      }
    }
  }

  /** The keys of `s` in the order an iterator delivers them. */
  ghost function Sorted(s: set<Key>): (items: seq<Key>)
    ensures Ascending(items) && |items| == |s|
    ensures forall k :: k in items <==> k in s
  {
    if s == {} then []
    else
      LeastExists(s);
      var m :| IsLeast(m, s);
      [m] + Sorted(s - {m})
  }

  /** A strictly ascending sequence is determined by its elements. */
  lemma {:induction false} AscendingUnique(a: seq<Key>, b: seq<Key>)
    requires Ascending(a) && Ascending(b)
    requires forall k :: k in a <==> k in b
    ensures a == b
  {
    assert a != [] ==> a[0] in b;
    assert b != [] ==> b[0] in a;
    if a != [] {
      if a[0] != b[0] {
        assert Less(a[0], b[0]) && Less(b[0], a[0]);
        LessAsymmetric(a[0], b[0]);
      }
      forall k ensures k in a[1..] <==> k in b[1..] {
        LessIrreflexive(a[0]);
        assert k in a <==> k == a[0] || k in a[1..];
        assert k in b <==> k == b[0] || k in b[1..];
        assert a[0] !in a[1..] && b[0] !in b[1..];
      }
      AscendingUnique(a[1..], b[1..]);
      assert a == [a[0]] + a[1..] && b == [b[0]] + b[1..];
    }
  }

  /** The slice of an ascending sequence that holds the elements of `s` is `s` in order. */
  lemma SortedSlice(items: seq<Key>, p: nat, e: nat, s: set<Key>)
    requires Ascending(items) && p <= e <= |items|
    requires forall i | 0 <= i < |items| :: items[i] in s <==> p <= i < e
    requires forall k | k in s :: k in items
    ensures Sorted(s) == items[p..e]
  {
    forall k | k in s ensures k in items[p..e] {
      var i :| 0 <= i < |items| && items[i] == k;
      assert items[p..e][i - p] == k;
    }
    AscendingUnique(items[p..e], Sorted(s));
  }

  ghost function AtLeast(s: set<Key>, start: Key): set<Key> { set k | k in s && !Less(k, start) }
  ghost function AtMost(s: set<Key>, bound: Key): set<Key> { set k | k in s && !Less(bound, k) }

  /** A forward seek leaves the keys from `start` on. */
  lemma SeekSlice(s: set<Key>, items: seq<Key>, start: Key, p: nat)
    requires items == Sorted(s) && p <= |items|
    requires forall i | 0 <= i < p :: Less(items[i], start)
    requires forall i | p <= i < |items| :: !Less(items[i], start)
    ensures Sorted(AtLeast(s, start)) == items[p..|items|]
  {
    forall i | 0 <= i < |items| ensures items[i] in AtLeast(s, start) <==> p <= i < |items| {
      assert items[i] in items;
    }
    forall k | k in AtLeast(s, start) ensures k in items {}
    SortedSlice(items, p, |items|, AtLeast(s, start));
  }

  /** A reverse seek leaves the keys up to `bound`. */
  lemma SeekReverseSlice(s: set<Key>, items: seq<Key>, bound: Key, p: nat)
    requires items == Sorted(s) && p <= |items|
    requires forall i | 0 <= i < p :: !Less(bound, items[i])
    requires forall i | p <= i < |items| :: Less(bound, items[i])
    ensures Sorted(AtMost(s, bound)) == items[..p]
  {
    forall i | 0 <= i < |items| ensures items[i] in s { assert items[i] in items; }
    SortedSlice(items, 0, p, AtMost(s, bound));
  }

  /** NewIterator: the snapshot of the keys in order. */
  method NewIterator(keys: set<Key>) returns (items: seq<Key>)
    ensures items == Sorted(keys)
  {
    items := [];
    var rest := keys;
    while rest != {}
      invariant rest <= keys
      invariant Ascending(items)
      invariant forall k :: k in items <==> k in keys - rest
      invariant forall k, r | k in items && r in rest :: Less(k, r)
      decreases |rest|
    {
      LeastExists(rest);
      ghost var least :| IsLeast(least, rest);
      var m :| m in rest && forall k | k in rest :: k == m || Less(m, k);
      items, rest := items + [m], rest - {m};
    }
    AscendingUnique(items, Sorted(keys));
  }

  /** Seek on a forward iterator: the first position whose key is not before `start`. */
  method Seek(items: seq<Key>, start: Key) returns (p: nat)
    requires Ascending(items)
    ensures p <= |items|
    ensures forall i | 0 <= i < p :: Less(items[i], start)
    ensures forall i | p <= i < |items| :: !Less(items[i], start)
  {
    p := 0;
    while p < |items| && Less(items[p], start)
      invariant p <= |items|
      invariant forall i | 0 <= i < p :: Less(items[i], start)
    {
      p := p + 1;
    }
    forall i | p <= i < |items| ensures !Less(items[i], start) {
      if i != p && Less(items[i], start) { LessTransitive(items[p], items[i], start); }
    }
  }

  /** Seek on a reverse iterator: just past the last position whose key is not after `bound`. */
  method SeekReverse(items: seq<Key>, bound: Key) returns (p: nat)
    requires Ascending(items)
    ensures p <= |items|
    ensures forall i | 0 <= i < p :: !Less(bound, items[i])
    ensures forall i | p <= i < |items| :: Less(bound, items[i])
  {
    p := |items|;
    while p > 0 && Less(bound, items[p - 1])
      invariant p <= |items|
      invariant forall i | p <= i < |items| :: Less(bound, items[i])
    {
      p := p - 1;
    }
    forall i | 0 <= i < p ensures !Less(bound, items[i]) {
      if i != p - 1 && Less(bound, items[i]) { LessTransitive(bound, items[i], items[p - 1]); }
    }
  }
}
