/** The wire format as a grammar, and that the decoder accepts exactly what the grammar derives. */
module Grammar {
  import opened Bytes
  import opened Options
  import opened Decimal
  import opened Codec

  /** The words that stand for a truth value. */
  ghost predicate Word(s: seq<byte>, truth: bool) {
    if truth then
      s == Ascii("1") || s == Ascii("t") || s == Ascii("T") || s == Ascii("true") || s == Ascii("TRUE") || s == Ascii("True")
    else
      s == Ascii("0") || s == Ascii("f") || s == Ascii("F") || s == Ascii("false") || s == Ascii("FALSE") || s == Ascii("False")
  }

  lemma WordIff(s: seq<byte>, truth: bool)
    ensures ParseBool(s) == Some(truth) <==> Word(s, truth)
  {
    assert Ascii("1") == [49] && Ascii("t") == [116] && Ascii("T") == [84];
    assert Ascii("true") == TRUE && Ascii("TRUE") == [84, 82, 85, 69] && Ascii("True") == [84, 114, 117, 101];
    assert Ascii("0") == [48] && Ascii("f") == [102] && Ascii("F") == [70];
    assert Ascii("false") == FALSE && Ascii("FALSE") == [70, 65, 76, 83, 69] && Ascii("False") == [70, 97, 108, 115, 101];
  }

  /** The character that announces a message. */
  function Sigil(m: Message): char
    requires !m.Unknown?
  {
    match m
    case SimpleString(_) => '+'
    case Error(_) => '-'
    case Int(_) => ':'
    case Null => '_'
    case Bool(_) => '#'
    case Double(_) => ','
    case BigNumber(_) => '('
    case Bulk(k, _, _) => (match k case BulkString => '$' case BulkError => '!')
    case Verbatim(_, _, _) => '='
    case List(k, _, _, _) => (match k case Array => '*' case Set => '~' case Push => '>')
    case Pairs(k, _, _) => (match k case Map => '%' case Attribute => '`')
  }

  const SIGILS: set<char> := {'+', '-', ':', '_', '#', ',', '(', '$', '!', '=', '*', '~', '>', '%', '`'}

  /** A byte that announces nothing is passed over. */
  ghost predicate Noise(b: seq<byte>) {
    forall x | x in b :: x as char !in SIGILS
  }

  lemma NoiseIff(x: byte)
    ensures CategoryOf(x).NoCategory? <==> x as char !in SIGILS
  {}

  /** What the line of a simple message says. */
  ghost predicate Says(m: Message, line: seq<byte>) {
    match m
    case SimpleString(s) => line == s
    case Error(s) => line == s
    case Int(i) => Numeral(line, i)
    case Null => true
    case Bool(b) => Word(line, b)
    case Double(s) => line == s
    case BigNumber(i) => line == FormatInt(i)
    case _ => false
  }

  // ---- the grammar ----

  /** The bytes `c` are a way to write the message `m`. */
  ghost predicate Wire(m: Message, c: seq<byte>)
    decreases m, 3
  {
    exists noise: seq<byte>, line: seq<byte>, body: seq<byte> :: WireAs(m, c, noise, line, body)
  }

  /** It is written with this noise before it, this first line and these contents. */
  ghost predicate WireAs(m: Message, c: seq<byte>, noise: seq<byte>, line: seq<byte>, body: seq<byte>)
    decreases m, 2
  {
    && !m.Unknown? && Noise(noise) && OneLine(line)
    && c == noise + ([Sigil(m) as int] + (line + EOL + body))
    && if SimpleKind(m) then Says(m, line) && body == [] else Numeral(line, m.run) && Holds(m, body)
  }

  predicate SimpleKind(m: Message) { !m.Bulk? && !m.Verbatim? && !m.List? && !m.Pairs? }

  /** The contents of an aggregate, as many as its run length says. */
  ghost predicate Holds(m: Message, body: seq<byte>)
    decreases m, 1
  {
    match m
    case Bulk(_, run, text) => |text| == Count(run) && body == text + EOL
    case Verbatim(run, tag, text) => OneLine(tag) && |text| == Count(run) && body == tag + EOL + (text + EOL)
    case List(_, run, list, broken) => |list| == Count(run) && !broken && WireList(list, body)
    case Pairs(_, run, pairs) => |pairs| == Count(run) && WirePairs(pairs, body)
    case _ => false
  }

  ghost predicate WireList(list: seq<Message>, c: seq<byte>)
    decreases list, 0
  {
    if list == [] then c == []
    else exists a: seq<byte>, b: seq<byte> :: c == a + b && Wire(list[0], a) && WireList(list[1..], b)
  }

  ghost predicate WirePairs(pairs: seq<Pair>, c: seq<byte>)
    decreases pairs, 0
  {
    if pairs == [] then c == []
    else exists a: seq<byte>, b: seq<byte> :: c == a + b && WirePair(pairs[0], a) && WirePairs(pairs[1..], b)
  }

  ghost predicate WirePair(p: Pair, c: seq<byte>)
    decreases p, 4
  {
    exists a: seq<byte>, b: seq<byte> :: c == a + b && Wire(p.key, a) && Wire(p.value, b)
  }

  // ---- lines ----

  lemma SigilIs(m: Message)
    requires !m.Unknown?
    ensures KindOf(m) == Sigil(m) as int
    ensures if SimpleKind(m) then CategoryOf(KindOf(m)).Simple? else CategoryOf(KindOf(m)).Aggregate?
  {}

  /** A simple message is decoded from a line if and only if the line says it. */
  lemma SaysIff(kind: byte, line: seq<byte>, m: Message)
    requires CategoryOf(kind).Simple?
    ensures DecodeSimple(kind, line) == Some(m) <==> !m.Unknown? && kind == Sigil(m) as int && Says(m, line)
  {
    match m
    case Int(i) => ParseIntIff(line, i);
    case Bool(b) => WordIff(line, b);
    case BigNumber(i) => ParseFormatDecimal(i);
    case _ =>
  }

  lemma {:induction false} NoisePassed(noise: seq<byte>, b: seq<byte>)
    requires Noise(noise)
    ensures Decode(noise + b) == Decode(b)
  {
    if noise == [] {
      assert noise + b == b;
    } else {
      assert noise[0] in noise && forall x | x in noise[1..] :: x in noise;
      NoiseIff(noise[0]);
      assert (noise + b)[1..] == noise[1..] + b;
      NoisePassed(noise[1..], b);
    }
  }

  // ---- what the grammar derives is decoded ----

  lemma Regroup(noise: seq<byte>, kind: seq<byte>, line: seq<byte>, body: seq<byte>, rest: seq<byte>)
    ensures noise + (kind + (line + EOL + body)) + rest == noise + (kind + (line + EOL + (body + rest)))
  {
    assert line + EOL + body + rest == line + EOL + (body + rest);
    assert kind + (line + EOL + body) + rest == kind + (line + EOL + body + rest);
  }

  lemma {:induction false} WireDecodes(m: Message, c: seq<byte>, rest: seq<byte>)
    requires Wire(m, c)
    ensures Decode(c + rest) == Ok(m, rest)
    decreases m, 3
  {
    var noise: seq<byte>, line: seq<byte>, body: seq<byte> :| WireAs(m, c, noise, line, body);
    var kind := KindOf(m);
    SigilIs(m);
    Regroup(noise, [kind], line, body, rest);
    NoisePassed(noise, [kind] + (line + EOL + (body + rest)));
    if SimpleKind(m) {
      SaysIff(kind, line, m);
      assert body + rest == rest;
      DecodeStep(kind, line, rest);
    } else {
      ParseIntIff(line, m.run);
      DecodeStep(kind, line, body + rest);
      HoldsDecodes(m, body, rest);
    }
  }

  lemma BodyDecodes(run: int64, text: seq<byte>, rest: seq<byte>)
    requires |text| == Count(run)
    ensures DecodeBody(run, text + EOL + rest) == Ok(text, rest)
  {
    var b := text + EOL + rest;
    assert b[..|text|] == text && b[|text| + 2..] == rest;
  }

  lemma VerbatimDecodes(run: int64, tag: Tag, text: seq<byte>, rest: seq<byte>)
    requires OneLine(tag) && |text| == Count(run)
    ensures DecodeAggregate(61, run, tag + EOL + (text + EOL) + rest) == Ok(Verbatim(run, tag, text), rest)
  {
    BodyDecodes(run, text, rest);
    LineIff(tag, text + EOL + rest);
    assert tag + EOL + (text + EOL) + rest == tag + EOL + (text + EOL + rest);
  }

  lemma {:induction false} HoldsDecodes(m: Message, body: seq<byte>, rest: seq<byte>)
    requires !SimpleKind(m) && Holds(m, body)
    ensures DecodeAggregate(KindOf(m), m.run, body + rest) == Ok(m, rest)
    decreases m, 1
  {
    match m
    case Bulk(_, run, text) => BodyDecodes(run, text, rest);
    case Verbatim(run, tag, text) => VerbatimDecodes(run, tag, text, rest);
    case List(_, run, list, _) => ListDecodes(list, body, rest);
    case Pairs(_, run, pairs) =>
      PairsDecode(pairs, body, rest);
      PairsAggregate(m, body + rest, rest);
  }

  lemma PairsAggregate(m: Message, b: seq<byte>, rest: seq<byte>)
    requires m.Pairs? && |m.pairs| == Count(m.run) && DecodeList(2 * |m.pairs|, b) == Ok(Flatten(m.pairs), rest)
    ensures DecodeAggregate(KindOf(m), m.run, b) == Ok(m, rest)
  {
    ChunkFlatten(m.pairs);
  }

  lemma {:induction false} ListDecodes(list: seq<Message>, c: seq<byte>, rest: seq<byte>)
    requires WireList(list, c)
    ensures DecodeList(|list|, c + rest) == Ok(list, rest)
    decreases list, 0
  {
    if list == [] {
      assert c + rest == rest;
    } else {
      var a: seq<byte>, b: seq<byte> :| c == a + b && Wire(list[0], a) && WireList(list[1..], b);
      assert c + rest == a + (b + rest);
      WireDecodes(list[0], a, b + rest);
      ListDecodes(list[1..], b, rest);
      DecodeListStep(|list|, c + rest, list[0], b + rest, list[1..], rest);
      assert list == [list[0]] + list[1..];
    }
  }

  lemma {:induction false} PairsDecode(pairs: seq<Pair>, c: seq<byte>, rest: seq<byte>)
    requires WirePairs(pairs, c)
    ensures DecodeList(2 * |pairs|, c + rest) == Ok(Flatten(pairs), rest)
    decreases pairs, 0
  {
    if pairs == [] {
      assert c + rest == rest;
    } else {
      var a: seq<byte>, b: seq<byte> :| c == a + b && WirePair(pairs[0], a) && WirePairs(pairs[1..], b);
      assert c + rest == a + (b + rest);
      PairsDecode(pairs[1..], b, rest);
      var n, list := 2 * |pairs[1..]|, Flatten(pairs[1..]);
      PairDecodes(pairs[0], a, n, b + rest, list, rest);
      assert n + 2 == 2 * |pairs| && Flatten(pairs) == [pairs[0].key, pairs[0].value] + list;
    }
  }

  lemma {:induction false} PairDecodes(p: Pair, c: seq<byte>, n: nat, tail: seq<byte>, list: seq<Message>, rest: seq<byte>)
    requires WirePair(p, c) && DecodeList(n, tail) == Ok(list, rest)
    ensures DecodeList(n + 2, c + tail) == Ok([p.key, p.value] + list, rest)
    decreases p, 4
  {
    var a: seq<byte>, b: seq<byte> :| c == a + b && Wire(p.key, a) && Wire(p.value, b);
    assert c + tail == a + (b + tail);
    WireDecodes(p.key, a, b + tail);
    WireDecodes(p.value, b, tail);
    DecodeListStep(n + 1, b + tail, p.value, tail, list, rest);
    DecodeListStep(n + 2, c + tail, p.key, b + tail, [p.value] + list, rest);
    assert [p.key] + ([p.value] + list) == [p.key, p.value] + list;
  }

  // ---- what is decoded, the grammar derives ----

  lemma {:induction false} DecodedIsWire(b: seq<byte>) returns (c: seq<byte>)
    requires Decode(b).Ok?
    ensures b == c + Decode(b).rest && Wire(Decode(b).value, c)
    decreases |b|, 0
  {
    var m, rest := Decode(b).value, Decode(b).rest;
    if CategoryOf(b[0]).NoCategory? {
      var c' := DecodedIsWire(b[1..]);
      c := [b[0]] + c';
      AddNoise(m, b[0], c');
      assert b == [b[0]] + b[1..];
    } else {
      LineSplits(b[1..]);
      var text := Line(b[1..]).value;
      if CategoryOf(b[0]).Simple? {
        SaysIff(b[0], text.text, m);
        c := Simple(b, m, text.text, rest);
      } else {
        ParseIntIff(text.text, ParseInt(text.text).value);
        var body := AggregateIsHeld(b[0], ParseInt(text.text).value, text.rest);
        c := Aggregate(b, m, text.text, body, rest);
      }
    }
  }

  lemma AddNoise(m: Message, x: byte, c: seq<byte>)
    requires CategoryOf(x).NoCategory? && Wire(m, c)
    ensures Wire(m, [x] + c)
  {
    var noise: seq<byte>, line: seq<byte>, body: seq<byte> :| WireAs(m, c, noise, line, body);
    NoiseIff(x);
    assert [x] + c == ([x] + noise) + ([Sigil(m) as int] + (line + EOL + body));
    assert WireAs(m, [x] + c, [x] + noise, line, body);
  }

  lemma Simple(b: seq<byte>, m: Message, line: seq<byte>, rest: seq<byte>) returns (c: seq<byte>)
    requires |b| > 0 && !m.Unknown? && SimpleKind(m) && b[0] == Sigil(m) as int && b[1..] == line + EOL + rest
    requires OneLine(line) && Says(m, line)
    ensures b == c + rest && Wire(m, c)
  {
    c := [] + ([b[0]] + (line + EOL + []));
    assert b == [b[0]] + b[1..];
    assert WireAs(m, c, [], line, []);
  }

  lemma Aggregate(b: seq<byte>, m: Message, line: seq<byte>, body: seq<byte>, rest: seq<byte>) returns (c: seq<byte>)
    requires |b| > 0 && !m.Unknown? && !SimpleKind(m) && b[0] == Sigil(m) as int && b[1..] == line + EOL + (body + rest)
    requires OneLine(line) && Numeral(line, m.run) && Holds(m, body)
    ensures b == c + rest && Wire(m, c)
  {
    c := [] + ([b[0]] + (line + EOL + body));
    Regroup([], [b[0]], line, body, rest);
    assert b == [b[0]] + b[1..];
    assert WireAs(m, c, [], line, body);
  }

  lemma BodyIsHeld(run: int64, b: seq<byte>)
    requires DecodeBody(run, b).Ok?
    ensures var r := DecodeBody(run, b); |r.value| == Count(run) && b == r.value + EOL + r.rest
  {
    var n := Count(run);
    assert b == b[..n] + [b[n], b[n + 1]] + b[n + 2..];
  }

  lemma {:induction false} AggregateIsHeld(kind: byte, run: int64, b: seq<byte>) returns (body: seq<byte>)
    requires CategoryOf(kind).Aggregate? && DecodeAggregate(kind, run, b).Ok?
    ensures var r := DecodeAggregate(kind, run, b);
            && !r.value.Unknown? && !SimpleKind(r.value) && kind == Sigil(r.value) as int && r.value.run == run
            && b == body + r.rest && Holds(r.value, body)
    decreases |b|, 2
  {
    if kind == 36 || kind == 33 {
      BodyIsHeld(run, b);
      body := DecodeBody(run, b).value + EOL;
    } else if kind == 61 {
      LineSplits(b);
      var tag := Line(b).value;
      BodyIsHeld(run, tag.rest);
      body := tag.text + EOL + (DecodeBody(run, tag.rest).value + EOL);
    } else if kind == 37 || kind == 96 {
      body := PairsAreWire(Count(run), b);
    } else {
      body := ListIsWire(Count(run), b);
    }
  }

  lemma OneDecoded(n: nat, b: seq<byte>)
    requires n > 0 && DecodeList(n, b).Ok?
    ensures Decode(b).Ok?
    ensures var first, list := Decode(b), DecodeList(n, b);
            |list.value| > 0 && list.value[0] == first.value && DecodeList(n - 1, first.rest) == Ok(list.value[1..], list.rest)
  {
    var first := Decode(b);
    var tail := DecodeList(n - 1, first.rest).value;
    assert ([first.value] + tail)[1..] == tail;
  }

  lemma ListGrows(list: seq<Message>, a: seq<byte>, d: seq<byte>)
    requires |list| > 0 && Wire(list[0], a) && WireList(list[1..], d)
    ensures WireList(list, a + d)
  {}

  lemma PairsGrow(pairs: seq<Pair>, a: seq<byte>, d: seq<byte>)
    requires |pairs| > 0 && WirePair(pairs[0], a) && WirePairs(pairs[1..], d)
    ensures WirePairs(pairs, a + d)
  {}

  lemma {:induction false} ListIsWire(n: nat, b: seq<byte>) returns (c: seq<byte>)
    requires DecodeList(n, b).Ok?
    ensures b == c + DecodeList(n, b).rest && WireList(DecodeList(n, b).value, c)
    decreases |b|, 1, n
  {
    if n == 0 {
      c := [];
    } else {
      OneDecoded(n, b);
      var list, first := DecodeList(n, b), Decode(b);
      var a := DecodedIsWire(b);
      var d := ListIsWire(n - 1, first.rest);
      c := a + d;
      ListGrows(list.value, a, d);
      assert b == a + first.rest == a + (d + list.rest);
    }
  }

  lemma TwoDecoded(n: nat, b: seq<byte>) returns (first: Parse<Message>, second: Parse<Message>)
    requires n > 0 && DecodeList(2 * n, b).Ok?
    ensures first == Decode(b) && first.Ok? && second == Decode(first.rest) && second.Ok?
    ensures var list := DecodeList(2 * n, b);
            && |list.value| >= 2 && list.value[0] == first.value && list.value[1] == second.value
            && DecodeList(2 * (n - 1), second.rest) == Ok(list.value[2..], list.rest)
  {
    OneDecoded(2 * n, b);
    first := Decode(b);
    OneDecoded(2 * n - 1, first.rest);
    second := Decode(first.rest);
    var list := DecodeList(2 * n, b).value;
    assert list[1..][0] == list[1] && list[1..][1..] == list[2..];
  }

  lemma Join(x: seq<byte>, y: seq<byte>, d: seq<byte>, rest: seq<byte>)
    ensures x + (y + (d + rest)) == x + y + d + rest
  {}

  lemma {:induction false} PairsAreWire(n: nat, b: seq<byte>) returns (c: seq<byte>)
    requires DecodeList(2 * n, b).Ok?
    ensures b == c + DecodeList(2 * n, b).rest && WirePairs(Chunk(DecodeList(2 * n, b).value), c)
    decreases |b|, 1, n
  {
    if n == 0 {
      c := [];
    } else {
      var list := DecodeList(2 * n, b);
      var first, second := TwoDecoded(n, b);
      var x := DecodedIsWire(b);
      var y := DecodedIsWire(first.rest);
      var d := PairsAreWire(n - 1, second.rest);
      c := x + y + d;
      Join(x, y, d, list.rest);
      TwoGrow(list.value, x, y, d);
    }
  }

  lemma TwoGrow(list: seq<Message>, x: seq<byte>, y: seq<byte>, d: seq<byte>)
    requires |list| >= 2 && Wire(list[0], x) && Wire(list[1], y) && WirePairs(Chunk(list[2..]), d)
    ensures WirePairs(Chunk(list), x + y + d)
  {
    var pairs := Chunk(list);
    assert pairs[0] == Pair(list[0], list[1]) && pairs[1..] == Chunk(list[2..]);
    assert WirePair(pairs[0], x + y);
    PairsGrow(pairs, x + y, d);
  }

  /** The decoder accepts exactly what the grammar derives: it returns a message and a rest if and only if
      what is before the rest is a way to write the message. */
  lemma DecodeIff(b: seq<byte>, m: Message, rest: seq<byte>)
    ensures Decode(b) == Ok(m, rest) <==> exists c: seq<byte> :: b == c + rest && Wire(m, c)
  {
    if Decode(b) == Ok(m, rest) {
      var c := DecodedIsWire(b);
    }
    if c: seq<byte> :| b == c + rest && Wire(m, c) {
      WireDecodes(m, c, rest);
    }
  }

  /** An error line is decoded as the error it carries, if and only if it is one line. */
  lemma ErrorLineIff(s: seq<byte>, rest: seq<byte>)
    ensures Decode([45] + (s + EOL + rest)) == Ok(Error(s), rest) <==> OneLine(s)
  {
    var b := [45] + (s + EOL + rest);
    if OneLine(s) {
      DecodeStep(45, s, rest);
    } else if Decode(b) == Ok(Error(s), rest) {
      DecodedIsEncodable(b);
    }
  }

  /** Whatever Encode writes of an encodable message is a way to write it. */
  lemma EmitIsWire(m: Message)
    requires Encodable(m)
    ensures Wire(m, Emit(m).bytes)
  {
    RoundTrip(m, []);
    var b := Emit(m).bytes;
    assert b + [] == b;
    var c := DecodedIsWire(b);
    assert c + [] == c;
  }

  /** What the size that a decoded message reports leaves out of the bytes it was written in. */
  lemma WireShortfall(m: Message, c: seq<byte>, line: seq<byte>, body: seq<byte>)
    requires WireAs(m, c, [], line, body)
    ensures |c| - SizeAt(m, line) ==
            match m
            case Bulk(_, run, text) => |text| - run + 2
            case Verbatim(run, _, text) => |text| - run + 4
            case List(_, run, _, _) => |body| - run
            case Pairs(_, run, _) => |body| - run
            case _ => 0
  {}
}
