/** Byte strings, their lexicographic order, and the big-endian numbers of raft/util.go. */
module Bytes {

  type byte = b: int | 0 <= b < 256
  type Key = seq<byte>

  const TWO_64: int := 0x1_0000_0000_0000_0000
  type uint64 = u: int | 0 <= u < TWO_64

  /** `a` comes strictly before `b` in the order Badger keeps its keys in. */
  predicate Less(a: Key, b: Key) {
    b != [] && (a == [] || a[0] < b[0] || (a[0] == b[0] && Less(a[1..], b[1..])))
  }

  lemma {:induction false} LessIrreflexive(a: Key)
    ensures !Less(a, a)
  {
    if a != [] { LessIrreflexive(a[1..]); }
  }

  lemma {:induction false} LessTransitive(a: Key, b: Key, c: Key)
    requires Less(a, b) && Less(b, c)
    ensures Less(a, c)
  {
    if a != [] && a[0] == b[0] == c[0] { LessTransitive(a[1..], b[1..], c[1..]); }
  }

  lemma {:induction false} LessTotal(a: Key, b: Key)
    ensures a == b || Less(a, b) || Less(b, a)
  {
    if a != [] && b != [] && a[0] == b[0] {
      LessTotal(a[1..], b[1..]);
      assert a == [a[0]] + a[1..] && b == [b[0]] + b[1..];
    }
  }

  lemma LessAsymmetric(a: Key, b: Key)
    requires Less(a, b)
    ensures !Less(b, a)
  {
    if Less(b, a) {
      LessTransitive(a, b, a);
      LessIrreflexive(a);
    }
  }

  /** A common prefix does not change the order. */
  lemma {:induction false} LessPrefixed(p: Key, a: Key, b: Key)
    ensures Less(p + a, p + b) <==> Less(a, b)
  {
    if p == [] {
      assert p + a == a && p + b == b;
    } else {
      assert (p + a)[1..] == p[1..] + a && (p + b)[1..] == p[1..] + b;
      LessPrefixed(p[1..], a, b);
    }
  }

  /** Between strings of one length the last byte decides only after a tie. */
  lemma {:induction false} LessSnoc(a: Key, x: byte, b: Key, y: byte)
    requires |a| == |b|
    ensures Less(a + [x], b + [y]) <==> Less(a, b) || (a == b && x < y)
  {
    if a != [] {
      assert (a + [x])[1..] == a[1..] + [x] && (b + [y])[1..] == b[1..] + [y];
      assert a == [a[0]] + a[1..] && b == [b[0]] + b[1..];
      LessSnoc(a[1..], x, b[1..], y);
    }
  }

  function Pow256(n: nat): nat {
    if n == 0 then 1 else 256 * Pow256(n - 1)
  }

  /** The number that `b` writes in big-endian order. */
  function FromBytes(b: Key): nat {
    if b == [] then 0 else FromBytes(b[..|b| - 1]) * 256 + b[|b| - 1]
  }

  /** The `n` low big-endian bytes of `u`. */
  function ToBytes(u: nat, n: nat): (b: Key)
    ensures |b| == n
  {
    if n == 0 then [] else ToBytes(u / 256, n - 1) + [u % 256]
  }

  lemma {:induction false} FromBytesBound(b: Key)
    ensures FromBytes(b) < Pow256(|b|)
  {
    if b != [] { FromBytesBound(b[..|b| - 1]); }
  }

  lemma {:induction false} FromToBytes(u: nat, n: nat)
    requires u < Pow256(n)
    ensures FromBytes(ToBytes(u, n)) == u
  {
    if n > 0 {
      FromToBytes(u / 256, n - 1);
      assert ToBytes(u, n)[..n - 1] == ToBytes(u / 256, n - 1);
    }
  }

  lemma {:induction false} ToFromBytes(b: Key)
    ensures ToBytes(FromBytes(b), |b|) == b
  {
    if b != [] {
      ToFromBytes(b[..|b| - 1]);
      assert b == b[..|b| - 1] + [b[|b| - 1]];
    }
  }

  /** On strings of one length, byte order is numeric order. */
  lemma {:induction false} OrderIsNumeric(a: Key, b: Key)
    requires |a| == |b|
    ensures Less(a, b) <==> FromBytes(a) < FromBytes(b)
  {
    if a != [] {
      var n := |a| - 1;
      assert a == a[..n] + [a[n]] && b == b[..n] + [b[n]];
      LessSnoc(a[..n], a[n], b[..n], b[n]);
      OrderIsNumeric(a[..n], b[..n]);
      if FromBytes(a[..n]) == FromBytes(b[..n]) {
        ToFromBytes(a[..n]);
        ToFromBytes(b[..n]);
      }
    }
  }

  lemma Pow256Of8()
    ensures Pow256(8) == TWO_64
  {
    assert Pow256(4) == 0x1_0000_0000;
    assert Pow256(8) == 0x1_0000_0000 * Pow256(4);
  }

  // ---- raft/util.go: the fixed eight-byte form ----

  function Uint64ToBytes(u: uint64): (b: Key)
    ensures |b| == 8
  {
    ToBytes(u, 8)
  }

  function BytesToUint64(b: Key): uint64
    requires |b| == 8
  {
    FromBytesBound(b);
    Pow256Of8();
    FromBytes(b)
  }

  /** The two conversions are inverse to each other. */
  lemma Uint64RoundTrip(u: uint64, b: Key)
    requires |b| == 8
    ensures BytesToUint64(Uint64ToBytes(u)) == u
    ensures Uint64ToBytes(BytesToUint64(b)) == b
  {
    Pow256Of8();
    FromToBytes(u, 8);
    ToFromBytes(b);
  }

  /** Byte order on encoded numbers is numeric order. */
  lemma Uint64Order(u: uint64, v: uint64)
    ensures Less(Uint64ToBytes(u), Uint64ToBytes(v)) <==> u < v
  {
    Uint64RoundTrip(u, Uint64ToBytes(u));
    Uint64RoundTrip(v, Uint64ToBytes(v));
    OrderIsNumeric(Uint64ToBytes(u), Uint64ToBytes(v));
  }
}
