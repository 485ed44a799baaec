/** Decimal numbers as strconv.FormatInt writes and strconv.ParseInt reads them, and the lines that
    carry them. */
module Decimal {
  import opened Bytes
  import opened Options

  type int64 = i: int | -0x8000_0000_0000_0000 <= i < 0x8000_0000_0000_0000

  const CR: byte := 13
  const LF: byte := 10
  const EOL: seq<byte> := [CR, LF]
  const MINUS: byte := 45
  const PLUS: byte := 43

  function Code(c: char): byte { if c as int < 256 then c as int else 0 }

  /** The bytes of a string of ASCII characters. */
  function Ascii(s: string): seq<byte> {
    seq(|s|, i requires 0 <= i < |s| => Code(s[i]))
  }

  function FormatNat(n: nat): (s: seq<byte>)
    ensures |s| >= 1 && forall i | 0 <= i < |s| :: 48 <= s[i] < 58
  {
    if n < 10 then [48 + n] else FormatNat(n / 10) + [48 + n % 10]
  }

  function FormatInt(i: int): (s: seq<byte>)
    ensures |s| >= 1 && CR !in s
  {
    if i < 0 then [MINUS] + FormatNat(-i) else FormatNat(i)
  }

  function ParseNat(s: seq<byte>): Option<nat> {
    if s == [] || !(48 <= s[|s| - 1] < 58) then None
    else if |s| == 1 then Some(s[0] - 48)
    else
      match ParseNat(s[..|s| - 1])
      case None => None
      case Some(n) => Some(n * 10 + (s[|s| - 1] - 48))
  }

  function Negated(n: Option<int>): Option<int> {
    if n.Some? then Some(-n.value) else None
  }

  function ParseDecimal(s: seq<byte>): Option<int> {
    if s == [] then None
    else if s[0] == MINUS then Negated(ParseNat(s[1..]))
    else if s[0] == PLUS then ParseNat(s[1..])
    else ParseNat(s)
  }

  /** ParseInt(s, 10, 64): a sign is optional and the number must fit. */
  function ParseInt(s: seq<byte>): Option<int64> {
    match ParseDecimal(s)
    case Some(i) => if -0x8000_0000_0000_0000 <= i < 0x8000_0000_0000_0000 then Some(i) else None
    case None => None
  }

  lemma {:induction false} ParseFormatNat(n: nat)
    ensures ParseNat(FormatNat(n)) == Some(n)
  {
    if n >= 10 {
      ParseFormatNat(n / 10);
      assert FormatNat(n)[..|FormatNat(n)| - 1] == FormatNat(n / 10);
    }
  }

  lemma ParseFormatDecimal(i: int)
    ensures ParseDecimal(FormatInt(i)) == Some(i)
  {
    ParseFormatNat(if i < 0 then -i else i);
    if i < 0 { assert FormatInt(i)[1..] == FormatNat(-i); }
  }

  /** What is written is read back. */
  lemma ParseFormatInt(i: int64)
    ensures ParseInt(FormatInt(i)) == Some(i)
  {
    ParseFormatDecimal(i);
  }

  // ---- what a numeral is ----

  function Pow10(n: nat): nat { if n == 0 then 1 else 10 * Pow10(n - 1) }

  /** The value of a string of digits, most significant first. */
  function DigitsValue(s: seq<byte>): int {
    if s == [] then 0 else (s[0] - 48) * Pow10(|s| - 1) + DigitsValue(s[1..])
  }

  lemma {:induction false} DigitsSnoc(s: seq<byte>, d: byte)
    ensures DigitsValue(s + [d]) == 10 * DigitsValue(s) + (d - 48)
  {
    if s == [] {
      assert [] + [d] == [d];
    } else {
      DigitsSnoc(s[1..], d);
      assert (s + [d])[1..] == s[1..] + [d];
      assert (s[0] - 48) * Pow10(|s|) == 10 * ((s[0] - 48) * Pow10(|s| - 1));
    }
  }

  /** FormatNat writes the digits of its number, with no zero in front. */
  lemma {:induction false} FormatNatIs(n: nat)
    ensures DigitsValue(FormatNat(n)) == n
    ensures n > 0 ==> FormatNat(n)[0] != 48
  {
    if n >= 10 {
      FormatNatIs(n / 10);
      DigitsSnoc(FormatNat(n / 10), 48 + n % 10);
    } else {
      assert DigitsValue([48 + n]) == n * Pow10(0) + DigitsValue([]);
    }
  }

  function ZeroDigits(z: nat): (s: seq<byte>)
    ensures |s| == z && forall i | 0 <= i < z :: s[i] == 48
  {
    seq(z, _ => 48)
  }

  lemma {:induction false} ParseZeros(z: nat, s: seq<byte>)
    requires s != [] && ParseNat(s).Some?
    ensures ParseNat(ZeroDigits(z) + s) == ParseNat(s)
    decreases |s|, z
  {
    var all := ZeroDigits(z) + s;
    var n := |s| - 1;
    if n > 0 {
      ParseZeros(z, s[..n]);
      assert all[..|all| - 1] == ZeroDigits(z) + s[..n];
    } else if z > 0 {
      assert [48][0] == 48 && ParseNat([48]) == Some(0);
      if z > 1 { ParseZeros(z - 1, [48]); }
      assert all[..|all| - 1] == ZeroDigits(z - 1) + [48];
    } else {
      assert all == s;
    }
  }

  lemma FormatSnoc(m: nat, d: nat)
    requires m > 0 && d < 10
    ensures FormatNat(10 * m + d) == FormatNat(m) + [48 + d]
  {
    assert (10 * m + d) / 10 == m && (10 * m + d) % 10 == d;
  }

  lemma ParseSnoc(s: seq<byte>)
    requires |s| > 1 && ParseNat(s).Some?
    ensures var n := |s| - 1;
            && ParseNat(s[..n]).Some? && 48 <= s[n] < 58
            && ParseNat(s).value == 10 * ParseNat(s[..n]).value + (s[n] - 48)
  {}

  lemma {:induction false} ParsedNat(s: seq<byte>, v: nat) returns (z: nat)
    requires ParseNat(s) == Some(v)
    ensures s == ZeroDigits(z) + FormatNat(v)
    decreases |s|
  {
    var n := |s| - 1;
    if n == 0 {
      z := 0;
      assert v == s[0] - 48 && FormatNat(v) == [48 + v];
    } else {
      ParseSnoc(s);
      var m, d := ParseNat(s[..n]).value, s[n] - 48;
      z := ParsedNat(s[..n], m);
      z := Lengthened(s, n, z, m, d);
    }
  }

  lemma Lengthened(s: seq<byte>, n: nat, z: nat, m: nat, d: nat) returns (z': nat)
    requires |s| == n + 1 && s[..n] == ZeroDigits(z) + FormatNat(m) && d < 10 && s[n] == 48 + d
    ensures s == ZeroDigits(z') + FormatNat(10 * m + d)
  {
    assert s == s[..n] + [s[n]];
    if m == 0 {
      z' := z + 1;
      assert FormatNat(0) == [48] && FormatNat(d) == [48 + d];
      assert ZeroDigits(z) + [48] == ZeroDigits(z + 1);
    } else {
      z' := z;
      FormatSnoc(m, d);
      assert ZeroDigits(z) + FormatNat(m) + [48 + d] == ZeroDigits(z) + (FormatNat(m) + [48 + d]);
    }
  }

  /** `s` is the decimal numeral of `i`, with any number of zeros in front and a sign that may be left out
      unless `i` is negative. */
  ghost predicate Numeral(s: seq<byte>, i: int) {
    exists sign: seq<byte>, z: nat :: NumeralAs(s, i, sign, z)
  }

  ghost predicate NumeralAs(s: seq<byte>, i: int, sign: seq<byte>, z: nat) {
    && s == sign + (ZeroDigits(z) + FormatNat(if i < 0 then -i else i))
    && ((sign == [MINUS] && i <= 0) || ((sign == [PLUS] || sign == []) && i >= 0))
  }

  lemma ParsedDecimal(s: seq<byte>, i: int)
    requires ParseDecimal(s) == Some(i)
    ensures Numeral(s, i)
  {
    var n := if i < 0 then -i else i;
    if s[0] == MINUS || s[0] == PLUS {
      var z := ParsedNat(s[1..], n);
      assert s == [s[0]] + (ZeroDigits(z) + FormatNat(n));
      assert NumeralAs(s, i, [s[0]], z);
    } else {
      var z := ParsedNat(s, n);
      assert s == [] + (ZeroDigits(z) + FormatNat(n));
      assert NumeralAs(s, i, [], z);
    }
  }

  lemma NumeralParses(s: seq<byte>, i: int, sign: seq<byte>, z: nat)
    requires NumeralAs(s, i, sign, z)
    ensures ParseDecimal(s) == Some(i)
  {
    var n := if i < 0 then -i else i;
    var digits := ZeroDigits(z) + FormatNat(n);
    assert ParseNat(digits) == Some(n) by {
      ParseFormatNat(n);
      ParseZeros(z, FormatNat(n));
    }
    assert 48 <= digits[0] < 58;
    if sign == [] { assert s == digits; } else { assert s[0] == sign[0] && s[1..] == digits; }
  }

  /** ParseInt reads exactly the numerals of the numbers that fit. */
  lemma ParseIntIff(s: seq<byte>, i: int64)
    ensures ParseInt(s) == Some(i) <==> Numeral(s, i)
  {
    if ParseInt(s) == Some(i) { ParsedDecimal(s, i); }
    if Numeral(s, i) {
      var sign: seq<byte>, z: nat :| NumeralAs(s, i, sign, z);
      NumeralParses(s, i, sign, z);
    }
  }

  // ---- lines ----

  /** The text holds no line end. */
  predicate OneLine(s: seq<byte>) {
    |s| < 2 || (!(s[0] == CR && s[1] == LF) && OneLine(s[1..]))
  }

  lemma {:induction false} NoReturnIsOneLine(s: seq<byte>)
    requires CR !in s
    ensures OneLine(s)
  {
    if |s| >= 2 {
      assert s[0] in s;
      forall x | x in s[1..] ensures x in s {}
      NoReturnIsOneLine(s[1..]);
    }
  }

  datatype Text = Text(text: seq<byte>, rest: seq<byte>)

  /** The bytes before the first line end, and those after it. */
  function Line(b: seq<byte>): (r: Option<Text>)
    ensures r.Some? ==> |r.value.rest| + |r.value.text| + 2 == |b|
  {
    if |b| < 2 then None
    else if b[0] == CR && b[1] == LF then Some(Text([], b[2..]))
    else
      match Line(b[1..])
      case None => None
      case Some(Text(t, rest)) => Some(Text([b[0]] + t, rest))
  }

  /** A line is read back as it was written if and only if its text holds no line end. */
  lemma {:induction false} LineIff(s: seq<byte>, rest: seq<byte>)
    ensures Line(s + EOL + rest) == Some(Text(s, rest)) <==> OneLine(s)
  {
    var b := s + EOL + rest;
    if s == [] {
      assert b[2..] == rest;
    } else {
      assert b[1..] == s[1..] + EOL + rest;
      LineIff(s[1..], rest);
      assert s == [s[0]] + s[1..];
      if |s| == 1 { assert b[1] == CR; }
    }
  }

  /** A line is what precedes its line end, and holds none itself. */
  lemma {:induction false} LineSplits(b: seq<byte>)
    requires Line(b).Some?
    ensures b == Line(b).value.text + EOL + Line(b).value.rest
    ensures OneLine(Line(b).value.text)
  {
    if !(b[0] == CR && b[1] == LF) {
      LineSplits(b[1..]);
      var t := Line(b[1..]).value.text;
      assert b == [b[0]] + b[1..];
      assert ([b[0]] + t)[1..] == t;
      if t != [] { assert b[1] == t[0]; }
    }
  }
}
