/** The messages of protocol/message, the bytes Encode emits for them, and the decoder that Iterate
    is meant to be. Four repairs separate that decoder from the code: it yields the message it
    has built, and with its kind; it reads the line end that follows a bulk body; it stops a
    collection after its run length; and a line may be empty, as that of a null is. A byte that
    is no kind is skipped, as the code's loop does. */
module Codec {
  import opened Bytes
  import opened Options
  import opened Decimal

  datatype BulkKind = BulkString | BulkError
  datatype ListKind = Array | Set | Push
  datatype PairKind = Map | Attribute

  type Tag = t: seq<byte> | |t| == 3 witness [0, 0, 0]

  /** A byte that is no kind. */
  type NoKind = k: byte | CategoryOf(k).NoCategory? witness 0

  /** A message. `run` is its RunLength field; a `body` is what its Reader holds, a `list` or
      `pairs` what its iterator yields. An iterator may end in an error (`broken`). */
  datatype Message =
    | SimpleString(text: seq<byte>)
    | Error(text: seq<byte>)
    | Int(value: int64)
    | Null
    | Bool(truth: bool)
    | Double(literal: seq<byte>)
    | BigNumber(number: int)
    | Bulk(bulkKind: BulkKind, run: int64, body: seq<byte>)
    | Verbatim(run: int64, tag: Tag, body: seq<byte>)
    | List(listKind: ListKind, run: int64, list: seq<Message>, broken: bool)
    | Pairs(pairKind: PairKind, run: int64, pairs: seq<Pair>)
    | Unknown(kind: NoKind)

  datatype Pair = Pair(key: Message, value: Message)

  /** The kind bytes of protocol/kind. */
  function KindOf(m: Message): byte {
    match m
    case SimpleString(_) => 43
    case Error(_) => 45
    case Int(_) => 58
    case Null => 95
    case Bool(_) => 35
    case Double(_) => 44
    case BigNumber(_) => 40
    case Bulk(k, _, _) => (match k case BulkString => 36 case BulkError => 33)
    case Verbatim(_, _, _) => 61
    case List(k, _, _, _) => (match k case Array => 42 case Set => 126 case Push => 62)
    case Pairs(k, _, _) => (match k case Map => 37 case Attribute => 96)
    case Unknown(k) => k
  }

  datatype Category = Simple | Aggregate | NoCategory

  function CategoryOf(kind: byte): Category {
    match kind
    case 43 | 45 | 58 | 95 | 35 | 44 | 40 => Simple
    case 42 | 126 | 62 | 36 | 33 | 61 | 37 | 96 => Aggregate
    case _ => NoCategory
  }

  const TRUE: seq<byte> := [116, 114, 117, 101]
  const FALSE: seq<byte> := [102, 97, 108, 115, 101]

  /** What Encode has emitted when it ends, and whether it ended well. */
  datatype Output = Output(bytes: seq<byte>, ok: bool)

  function Then(a: Output, b: Output): Output {
    if a.ok then Output(a.bytes + b.bytes, b.ok) else a
  }

  /** The line of a simple message; an error message is refused. */
  function SimpleLine(m: Message): Option<seq<byte>> {
    match m
    case SimpleString(s) => Some(s)
    case Int(i) => Some(FormatInt(i))
    case Null => Some([])
    case Bool(b) => Some(if b then TRUE else FALSE)
    case Double(s) => Some(s)
    case BigNumber(i) => Some(FormatInt(i))
    case _ => None
  }

  /** A bulk body: `run` bytes of it and a line end, or all of it if it is too short. */
  function EmitBody(run: int64, body: seq<byte>): Output {
    if run <= 0 then Output(EOL, true)
    else if run <= |body| then Output(body[..run] + EOL, true)
    else Output(body, false)
  }

  function Header(m: Message): seq<byte>
    requires m.Bulk? || m.Verbatim? || m.List? || m.Pairs?
  {
    [KindOf(m)] + FormatInt(m.run) + EOL + TagLine(m)
  }

  /** Encode. */
  function Emit(m: Message): Output
    decreases m, 1
  {
    match m
    case Bulk(_, run, body) => Then(Output(Header(m), true), EmitBody(run, body))
    case Verbatim(run, _, body) => Then(Output(Header(m), true), EmitBody(run, body))
    case List(_, _, list, broken) =>
      Then(Then(Output(Header(m), true), EmitList(list)), Output([], !broken))
    case Pairs(_, _, pairs) => Then(Output(Header(m), true), EmitPairs(pairs))
    case Unknown(k) => Output([k], true)
    case Error(_) => Output([KindOf(m)], false)
    case _ => Output([KindOf(m)] + SimpleLine(m).value + EOL, true)
  }

  function EmitList(list: seq<Message>): Output
    decreases list, 0
  {
    if list == [] then Output([], true) else Then(Emit(list[0]), EmitList(list[1..]))
  }

  function EmitPairs(pairs: seq<Pair>): Output
    decreases pairs, 0
  {
    if pairs == [] then Output([], true)
    else Then(EmitPair(pairs[0]), EmitPairs(pairs[1..]))
  }

  function EmitPair(p: Pair): Output
    decreases p, 2
  {
    Then(Emit(p.key), Emit(p.value))
  }

  // ---- decoding ----

  datatype Parse<+T> = Ok(value: T, rest: seq<byte>) | Fail

  function ParseBool(s: seq<byte>): Option<bool> {
    if s in {[49], [116], [84], TRUE, [84, 82, 85, 69], [84, 114, 117, 101]} then Some(true)
    else if s in {[48], [102], [70], FALSE, [70, 65, 76, 83, 69], [70, 97, 108, 115, 101]} then Some(false)
    else None
  }

  /** A big number, in the decimal form that big.Int writes. */
  function ParseBig(s: seq<byte>): Option<int> {
    var i := ParseDecimal(s);
    if i.Some? && FormatInt(i.value) == s then i else None
  }

  function DecodeSimple(kind: byte, s: seq<byte>): Option<Message> {
    if kind == 43 then Some(SimpleString(s))
    else if kind == 45 then Some(Error(s))
    else if kind == 58 then (match ParseInt(s) case Some(i) => Some(Int(i)) case None => None)
    else if kind == 95 then Some(Null)
    else if kind == 35 then (match ParseBool(s) case Some(b) => Some(Bool(b)) case None => None)
    else if kind == 44 then Some(Double(s))
    else (match ParseBig(s) case Some(i) => Some(BigNumber(i)) case None => None)
  }

  function Count(run: int64): nat { if run < 0 then 0 else run }

  /** A body of as many bytes as the run length says, and the line end after it. */
  function DecodeBody(run: int64, b: seq<byte>): Parse<seq<byte>> {
    var n := Count(run);
    if |b| >= n + 2 && b[n] == CR && b[n + 1] == LF then Ok(b[..n], b[n + 2..]) else Fail
  }

  /** One message off the front of `b`. */
  function Decode(b: seq<byte>): (r: Parse<Message>)
    ensures r.Ok? ==> |r.rest| < |b|
    decreases |b|, 0
  {
    if b == [] then Fail
    else if CategoryOf(b[0]).NoCategory? then Decode(b[1..])
    else
      match Line(b[1..])
      case None => Fail
      case Some(line) =>
        if CategoryOf(b[0]).Simple? then
          match DecodeSimple(b[0], line.text)
          case None => Fail
          case Some(m) => Ok(m, line.rest)
        else
          match ParseInt(line.text)
          case None => Fail
          case Some(run) => DecodeAggregate(b[0], run, line.rest)
  }

  function DecodeAggregate(kind: byte, run: int64, b: seq<byte>): (r: Parse<Message>)
    ensures r.Ok? ==> |r.rest| <= |b|
    decreases |b|, 2
  {
    if kind == 36 || kind == 33 then
      match DecodeBody(run, b)
      case Fail => Fail
      case Ok(body, rest) => Ok(Bulk(if kind == 36 then BulkString else BulkError, run, body), rest)
    else if kind == 61 then
      match Line(b)
      case None => Fail
      case Some(Text(tag, rest)) =>
        if |tag| != 3 then Fail
        else
          match DecodeBody(run, rest)
          case Fail => Fail
          case Ok(body, rest') => Ok(Verbatim(run, tag, body), rest')
    else if kind == 37 || kind == 96 then
      match DecodeList(2 * Count(run), b)
      case Fail => Fail
      case Ok(list, rest) => Ok(Pairs(if kind == 37 then Map else Attribute, run, Chunk(list)), rest)
    else
      match DecodeList(Count(run), b)
      case Fail => Fail
      case Ok(list, rest) =>
        Ok(List(if kind == 42 then Array else if kind == 126 then Set else Push, run, list, false), rest)
  }

  function DecodeList(n: nat, b: seq<byte>): (r: Parse<seq<Message>>)
    ensures r.Ok? ==> |r.rest| <= |b| && |r.value| == n
    decreases |b|, 1
  {
    if n == 0 then Ok([], b)
    else
      match Decode(b)
      case Fail => Fail
      case Ok(m, rest) =>
        match DecodeList(n - 1, rest)
        case Fail => Fail
        case Ok(list, rest') => Ok([m] + list, rest')
  }

  /** The messages paired up; an odd one out is dropped. */
  function Chunk(list: seq<Message>): (pairs: seq<Pair>)
    ensures |pairs| == |list| / 2
  {
    if |list| < 2 then [] else [Pair(list[0], list[1])] + Chunk(list[2..])
  }

  function Flatten(pairs: seq<Pair>): seq<Message> {
    if pairs == [] then [] else [pairs[0].key, pairs[0].value] + Flatten(pairs[1..])
  }

  // ---- the round trip ----

  /** The run length says how much there is; a negative one stands for nothing. */
  predicate RunFits(run: int64, size: nat) { Count(run) == size }

  /** The messages that can be told from their bytes; with `errors`, also error messages, which can
      be decoded but not encoded. */
  predicate Encodable(m: Message, errors: bool := false)
    decreases m, 1
  {
    match m
    case SimpleString(s) => OneLine(s)
    case Error(s) => errors && OneLine(s)
    case Double(s) => OneLine(s)
    case Bulk(_, run, body) => RunFits(run, |body|)
    case Verbatim(run, tag, body) => RunFits(run, |body|) && OneLine(tag)
    case List(_, run, list, broken) => RunFits(run, |list|) && !broken && AllEncodable(list, errors)
    case Pairs(_, run, pairs) => RunFits(run, |pairs|) && AllPairsEncodable(pairs, errors)
    case Unknown(_) => false
    case _ => true
  }

  predicate AllEncodable(list: seq<Message>, errors: bool := false)
    decreases list, 0
  {
    list == [] || (Encodable(list[0], errors) && AllEncodable(list[1..], errors))
  }

  predicate AllPairsEncodable(pairs: seq<Pair>, errors: bool := false)
    decreases pairs, 0
  {
    pairs == [] || (PairEncodable(pairs[0], errors) && AllPairsEncodable(pairs[1..], errors))
  }

  predicate PairEncodable(p: Pair, errors: bool := false)
    decreases p, 2
  {
    Encodable(p.key, errors) && Encodable(p.value, errors)
  }

  /** One line leads the decoder past the kind byte. */
  lemma DecodeStep(kind: byte, line: seq<byte>, rest: seq<byte>)
    requires OneLine(line)
    ensures CategoryOf(kind).Simple? && DecodeSimple(kind, line).Some? ==>
      Decode([kind] + (line + EOL + rest)) == Ok(DecodeSimple(kind, line).value, rest)
    ensures CategoryOf(kind).Aggregate? && ParseInt(line).Some? ==>
      Decode([kind] + (line + EOL + rest)) == DecodeAggregate(kind, ParseInt(line).value, rest)
  {
    LineIff(line, rest);
    var b := [kind] + (line + EOL + rest);
    assert b[1..] == line + EOL + rest;
  }

  lemma SimpleLineReads(m: Message)
    requires Encodable(m) && SimpleLine(m).Some?
    ensures CategoryOf(KindOf(m)).Simple?
    ensures OneLine(SimpleLine(m).value) && DecodeSimple(KindOf(m), SimpleLine(m).value) == Some(m)
  {
    var line := SimpleLine(m).value;
    match m
    case Int(i) => ParseFormatInt(i); NoReturnIsOneLine(line);
    case BigNumber(i) => ParseFormatDecimal(i); NoReturnIsOneLine(line);
    case Bool(_) => NoReturnIsOneLine(line);
    case _ =>
  }

  lemma EmitSimple(m: Message)
    requires SimpleLine(m).Some?
    ensures Emit(m) == Output([KindOf(m)] + SimpleLine(m).value + EOL, true)
  {}

  lemma LineAssoc(kind: seq<byte>, line: seq<byte>, eol: seq<byte>, rest: seq<byte>)
    ensures kind + line + eol + rest == kind + (line + eol + rest)
  {}

  lemma SimpleRoundTrip(m: Message, rest: seq<byte>)
    requires Encodable(m) && SimpleLine(m).Some?
    ensures Emit(m).ok && Decode(Emit(m).bytes + rest) == Ok(m, rest)
  {
    var line := SimpleLine(m).value;
    SimpleLineReads(m);
    DecodeStep(KindOf(m), line, rest);
    EmitSimple(m);
    LineAssoc([KindOf(m)], line, EOL, rest);
  }

  lemma BodyRoundTrip(run: int64, body: seq<byte>, rest: seq<byte>)
    requires RunFits(run, |body|)
    ensures EmitBody(run, body).ok && DecodeBody(run, EmitBody(run, body).bytes + rest) == Ok(body, rest)
  {
    var b := EmitBody(run, body).bytes + rest;
    assert b == body + EOL + rest;
    assert b[..|body|] == body && b[|body| + 2..] == rest;
  }

  lemma Assoc(a: seq<byte>, b: seq<byte>, c: seq<byte>)
    ensures a + b + c == a + (b + c)
  {}

  lemma HeaderAssoc(kind: seq<byte>, line: seq<byte>, eol: seq<byte>, tag: seq<byte>, tail: seq<byte>)
    ensures kind + line + eol + tag + tail == kind + (line + eol + (tag + tail))
  {}

  function TagLine(m: Message): seq<byte> { if m.Verbatim? then m.tag + EOL else [] }

  /** The header of an aggregate leads the decoder to its contents. */
  lemma HeaderRoundTrip(m: Message, tail: seq<byte>)
    requires m.Bulk? || m.Verbatim? || m.List? || m.Pairs?
    ensures Decode(Header(m) + tail) == DecodeAggregate(KindOf(m), m.run, TagLine(m) + tail)
  {
    var line := FormatInt(m.run);
    NoReturnIsOneLine(line);
    ParseFormatInt(m.run);
    DecodeStep(KindOf(m), line, TagLine(m) + tail);
    HeaderAssoc([KindOf(m)], line, EOL, TagLine(m), tail);
  }

  lemma BulkContents(m: Message, rest: seq<byte>, tail: seq<byte>)
    requires Encodable(m) && (m.Bulk? || m.Verbatim?)
    requires DecodeBody(m.run, tail) == Ok(m.body, rest)
    ensures DecodeAggregate(KindOf(m), m.run, TagLine(m) + tail) == Ok(m, rest)
  {
    if m.Verbatim? {
      LineIff(m.tag, tail);
    } else {
      assert [] + tail == tail;
    }
  }

  lemma AggregateRoundTrip(m: Message, contents: seq<byte>, rest: seq<byte>)
    requires m.Bulk? || m.Verbatim? || m.List? || m.Pairs?
    requires DecodeAggregate(KindOf(m), m.run, TagLine(m) + (contents + rest)) == Ok(m, rest)
    ensures Decode(Header(m) + contents + rest) == Ok(m, rest)
  {
    HeaderRoundTrip(m, contents + rest);
    Assoc(Header(m), contents, rest);
  }

  lemma BulkRoundTrip(m: Message, rest: seq<byte>)
    requires Encodable(m) && (m.Bulk? || m.Verbatim?)
    ensures Emit(m).ok && Decode(Emit(m).bytes + rest) == Ok(m, rest)
  {
    var contents := EmitBody(m.run, m.body).bytes;
    BodyRoundTrip(m.run, m.body, rest);
    BulkContents(m, rest, contents + rest);
    AggregateRoundTrip(m, contents, rest);
  }

  lemma {:induction false} ChunkFlatten(pairs: seq<Pair>)
    ensures Chunk(Flatten(pairs)) == pairs && |Flatten(pairs)| == 2 * |pairs|
  {
    if pairs != [] {
      ChunkFlatten(pairs[1..]);
      assert Flatten(pairs)[2..] == Flatten(pairs[1..]);
      assert pairs == [pairs[0]] + pairs[1..];
    }
  }

  lemma ListContents(m: Message, rest: seq<byte>, tail: seq<byte>)
    requires Encodable(m) && m.List? && DecodeList(|m.list|, tail) == Ok(m.list, rest)
    ensures DecodeAggregate(KindOf(m), m.run, TagLine(m) + tail) == Ok(m, rest)
  {
    assert [] + tail == tail;
  }

  lemma PairsContents(m: Message, rest: seq<byte>, tail: seq<byte>)
    requires Encodable(m) && m.Pairs? && DecodeList(2 * |m.pairs|, tail) == Ok(Flatten(m.pairs), rest)
    ensures DecodeAggregate(KindOf(m), m.run, TagLine(m) + tail) == Ok(m, rest)
  {
    assert [] + tail == tail;
    ChunkFlatten(m.pairs);
  }

  lemma DecodeListStep(n: nat, b: seq<byte>, m: Message, rest: seq<byte>, list: seq<Message>, rest': seq<byte>)
    requires n >= 1 && Decode(b) == Ok(m, rest) && DecodeList(n - 1, rest) == Ok(list, rest')
    ensures DecodeList(n, b) == Ok([m] + list, rest')
  {}

  lemma {:induction false} ListRoundTrip(list: seq<Message>, rest: seq<byte>)
    requires AllEncodable(list)
    ensures EmitList(list).ok && DecodeList(|list|, EmitList(list).bytes + rest) == Ok(list, rest)
    decreases list, 0
  {
    if list == [] {
      assert [] + rest == rest;
    } else {
      var m, ms := list[0], list[1..];
      var head, tail := Emit(m).bytes, EmitList(ms).bytes;
      assert [m] + ms == list;
      assert DecodeList(|list|, head + (tail + rest)) == Ok([m] + ms, rest) by {
        ListRoundTrip(ms, rest);
        RoundTrip(m, tail + rest);
        DecodeListStep(|list|, head + (tail + rest), m, tail + rest, ms, rest);
      }
      assert EmitList(list) == Output(head + tail, true) by {
        ListRoundTrip(ms, rest);
        RoundTrip(m, tail + rest);
      }
      Assoc(head, tail, rest);
    }
  }

  lemma {:induction false} PairsRoundTrip(pairs: seq<Pair>, rest: seq<byte>)
    requires AllPairsEncodable(pairs)
    ensures EmitPairs(pairs).ok
    ensures DecodeList(2 * |pairs|, EmitPairs(pairs).bytes + rest) == Ok(Flatten(pairs), rest)
    decreases pairs, 0
  {
    if pairs == [] {
      assert [] + rest == rest;
    } else {
      var head, tail := EmitPair(pairs[0]).bytes, EmitPairs(pairs[1..]).bytes;
      PairsRoundTrip(pairs[1..], rest);
      PairRoundTrip(pairs[0], 2 * |pairs|, Flatten(pairs[1..]), tail + rest, rest);
      Assoc(head, tail, rest);
    }
  }

  lemma {:induction false} PairRoundTrip(p: Pair, n: nat, list: seq<Message>, tail: seq<byte>, rest: seq<byte>)
    requires PairEncodable(p) && n >= 2 && DecodeList(n - 2, tail) == Ok(list, rest)
    ensures EmitPair(p).ok && DecodeList(n, EmitPair(p).bytes + tail) == Ok([p.key, p.value] + list, rest)
    decreases p, 2
  {
    var k, v := Emit(p.key).bytes, Emit(p.value).bytes;
    RoundTrip(p.key, v + tail);
    RoundTrip(p.value, tail);
    DecodeListStep(n - 1, v + tail, p.value, tail, list, rest);
    DecodeListStep(n, k + (v + tail), p.key, v + tail, [p.value] + list, rest);
    Assoc(k, v, tail);
    assert [p.key] + ([p.value] + list) == [p.key, p.value] + list;
  }

  /** Decoding what Encode emits gives back the message and leaves exactly what follows it. */
  lemma {:induction false} RoundTrip(m: Message, rest: seq<byte>)
    requires Encodable(m)
    ensures Emit(m).ok && Decode(Emit(m).bytes + rest) == Ok(m, rest)
    decreases m, 1
  {
    match m
    case Bulk(_, _, _) => BulkRoundTrip(m, rest);
    case Verbatim(_, _, _) => BulkRoundTrip(m, rest);
    case List(_, _, list, _) =>
      var contents := EmitList(list).bytes;
      ListRoundTrip(list, rest);
      ListContents(m, rest, contents + rest);
      AggregateRoundTrip(m, contents, rest);
      assert Emit(m).bytes == Header(m) + contents + [] == Header(m) + contents;
    case Pairs(_, _, pairs) =>
      var contents := EmitPairs(pairs).bytes;
      PairsRoundTrip(pairs, rest);
      PairsContents(m, rest, contents + rest);
      AggregateRoundTrip(m, contents, rest);
    case _ => SimpleRoundTrip(m, rest);
  }

  /** No encoding is the beginning of another: what follows a message cannot change what it is. */
  lemma PrefixFree(a: Message, b: Message, x: seq<byte>, y: seq<byte>)
    requires Encodable(a) && Encodable(b) && Emit(a).bytes + x == Emit(b).bytes + y
    ensures a == b && x == y
  {
    RoundTrip(a, x);
    RoundTrip(b, y);
  }

  // ---- what the decoder can return ----

  lemma {:induction false} ChunkEncodable(list: seq<Message>)
    requires AllEncodable(list, true)
    ensures AllPairsEncodable(Chunk(list), true)
  {
    if |list| >= 2 {
      assert list[1..][1..] == list[2..];
      ChunkEncodable(list[2..]);
      assert Chunk(list)[1..] == Chunk(list[2..]);
    }
  }

  lemma {:induction false} DecodedIsEncodable(b: seq<byte>)
    requires Decode(b).Ok?
    ensures Encodable(Decode(b).value, true)
    decreases |b|, 0
  {
    if CategoryOf(b[0]).NoCategory? {
      DecodedIsEncodable(b[1..]);
    } else {
      LineSplits(b[1..]);
      var line := Line(b[1..]).value;
      if CategoryOf(b[0]).Aggregate? {
        AggregateIsEncodable(b[0], ParseInt(line.text).value, line.rest);
      }
    }
  }

  lemma {:induction false} AggregateIsEncodable(kind: byte, run: int64, b: seq<byte>)
    requires DecodeAggregate(kind, run, b).Ok?
    ensures Encodable(DecodeAggregate(kind, run, b).value, true)
    decreases |b|, 2
  {
    if kind == 36 || kind == 33 {
    } else if kind == 61 {
      LineSplits(b);
    } else if kind == 37 || kind == 96 {
      ListIsEncodable(2 * Count(run), b);
      ChunkEncodable(DecodeList(2 * Count(run), b).value);
    } else {
      ListIsEncodable(Count(run), b);
    }
  }

  lemma {:induction false} ListIsEncodable(n: nat, b: seq<byte>)
    requires DecodeList(n, b).Ok?
    ensures AllEncodable(DecodeList(n, b).value, true)
    decreases |b|, 1
  {
    if n > 0 {
      DecodedIsEncodable(b);
      var first := Decode(b);
      ListIsEncodable(n - 1, first.rest);
      var list := DecodeList(n, b).value;
      assert list[0] == first.value && list[1..] == DecodeList(n - 1, first.rest).value;
    }
  }

  /** Whatever is encoded without an error holds no error message. */
  lemma {:induction false} EncodedHasNoError(m: Message)
    requires Encodable(m, true) && Emit(m).ok
    ensures Encodable(m)
    decreases m, 1
  {
    match m
    case List(_, _, list, _) => ListHasNoError(list);
    case Pairs(_, _, pairs) => PairsHaveNoError(pairs);
    case _ =>
  }

  lemma {:induction false} ListHasNoError(list: seq<Message>)
    requires AllEncodable(list, true) && EmitList(list).ok
    ensures AllEncodable(list)
    decreases list, 0
  {
    if list != [] {
      EncodedHasNoError(list[0]);
      ListHasNoError(list[1..]);
    }
  }

  lemma {:induction false} PairsHaveNoError(pairs: seq<Pair>)
    requires AllPairsEncodable(pairs, true) && EmitPairs(pairs).ok
    ensures AllPairsEncodable(pairs)
    decreases pairs, 0
  {
    if pairs != [] {
      PairHasNoError(pairs[0]);
      PairsHaveNoError(pairs[1..]);
    }
  }

  lemma {:induction false} PairHasNoError(p: Pair)
    requires PairEncodable(p, true) && EmitPair(p).ok
    ensures PairEncodable(p)
    decreases p, 2
  {
    EncodedHasNoError(p.key);
    EncodedHasNoError(p.value);
  }

  /** A message survives encoding and decoding, whatever follows it, if and only if it is encodable. */
  lemma RoundTripIff(m: Message, rest: seq<byte>)
    ensures Emit(m).ok && Decode(Emit(m).bytes + rest) == Ok(m, rest) <==> Encodable(m)
  {
    if Encodable(m) {
      RoundTrip(m, rest);
    } else if Emit(m).ok && Decode(Emit(m).bytes + rest) == Ok(m, rest) {
      DecodedIsEncodable(Emit(m).bytes + rest);
      EncodedHasNoError(m);
    }
  }

  // ---- what Encode refuses ----

  /** Nothing in the message is an error message, a body shorter than its run length, or a collection
      whose iterator ends in an error. */
  predicate Sendable(m: Message)
    decreases m, 1
  {
    match m
    case Error(_) => false
    case Bulk(_, run, body) => run <= |body|
    case Verbatim(run, _, body) => run <= |body|
    case List(_, _, list, broken) => !broken && AllSendable(list)
    case Pairs(_, _, pairs) => AllPairsSendable(pairs)
    case _ => true
  }

  predicate AllSendable(list: seq<Message>)
    decreases list, 0
  {
    list == [] || (Sendable(list[0]) && AllSendable(list[1..]))
  }

  predicate AllPairsSendable(pairs: seq<Pair>)
    decreases pairs, 0
  {
    pairs == [] || (PairSendable(pairs[0]) && AllPairsSendable(pairs[1..]))
  }

  predicate PairSendable(p: Pair)
    decreases p, 2
  {
    Sendable(p.key) && Sendable(p.value)
  }

  /** Encode ends well, on a writer that accepts everything, if and only if the message is sendable. */
  lemma {:induction false} EmitOkIff(m: Message)
    ensures Emit(m).ok <==> Sendable(m)
    decreases m, 1
  {
    match m
    case List(_, _, list, _) => ListOkIff(list);
    case Pairs(_, _, pairs) => PairsOkIff(pairs);
    case _ =>
  }

  lemma {:induction false} ListOkIff(list: seq<Message>)
    ensures EmitList(list).ok <==> AllSendable(list)
    decreases list, 0
  {
    if list != [] {
      EmitOkIff(list[0]);
      ListOkIff(list[1..]);
    }
  }

  lemma {:induction false} PairsOkIff(pairs: seq<Pair>)
    ensures EmitPairs(pairs).ok <==> AllPairsSendable(pairs)
    decreases pairs, 0
  {
    if pairs != [] {
      PairOkIff(pairs[0]);
      PairsOkIff(pairs[1..]);
    }
  }

  lemma {:induction false} PairOkIff(p: Pair)
    ensures EmitPair(p).ok <==> PairSendable(p)
    decreases p, 2
  {
    EmitOkIff(p.key);
    EmitOkIff(p.value);
  }

  // ---- the size a decoded message reports ----

  /** TotalMessageSize as Iterate computes it from the first line: for an aggregate, the run length in
      the place of the contents, and three for the tag of a verbatim string. */
  function SizeAt(m: Message, line: seq<byte>): int {
    1 + (|line| + 2) +
    match m
    case Bulk(_, run, _) => run
    case Verbatim(run, _, _) => run + 3
    case List(_, run, _, _) => run
    case Pairs(_, run, _) => run
    case _ => 0
  }

  /** The line after the kind byte, as Encode writes it; an error message it only could write. */
  function FirstLine(m: Message): seq<byte> {
    match m
    case Bulk(_, run, _) => FormatInt(run)
    case Verbatim(run, _, _) => FormatInt(run)
    case List(_, run, _, _) => FormatInt(run)
    case Pairs(_, run, _) => FormatInt(run)
    case Error(s) => s
    case _ => if SimpleLine(m).Some? then SimpleLine(m).value else []
  }

  function ReportedSize(m: Message): int { SizeAt(m, FirstLine(m)) }

  lemma {:induction false} ListSize(list: seq<Message>)
    requires AllEncodable(list)
    ensures EmitList(list).ok && |EmitList(list).bytes| >= 3 * |list|
    decreases list, 0
  {
    if list != [] {
      RoundTrip(list[0], []);
      ListSize(list[1..]);
    }
  }

  lemma {:induction false} PairsSize(pairs: seq<Pair>)
    requires AllPairsEncodable(pairs)
    ensures EmitPairs(pairs).ok && |EmitPairs(pairs).bytes| >= 3 * |pairs|
  {
    if pairs != [] {
      RoundTrip(pairs[0].key, []);
      RoundTrip(pairs[0].value, []);
      PairsSize(pairs[1..]);
    }
  }

  /** A simple message, or a collection of run length 0. */
  predicate ReportsExactly(m: Message) {
    !m.Bulk? && !m.Verbatim? && (m.List? || m.Pairs? ==> m.run == 0)
  }

  /** What the reported size leaves out: of a bulk string its line end, of a verbatim string another one
      and none of the three bytes of its tag, of a collection its contents but for the run length. A
      negative run length is added as such. */
  lemma ReportedShortfall(m: Message)
    requires Encodable(m)
    ensures |Emit(m).bytes| - ReportedSize(m) ==
            match m
            case Bulk(_, run, body) => |body| - run + 2
            case Verbatim(run, _, body) => |body| - run + 4
            case List(_, run, list, _) => |EmitList(list).bytes| - run
            case Pairs(_, run, pairs) => |EmitPairs(pairs).bytes| - run
            case _ => 0
  {
    match m
    case List(_, _, list, _) => ListSize(list);
    case Pairs(_, _, pairs) => PairsSize(pairs);
    case _ =>
  }

  /** The reported size never exceeds the size of the encoding, and equals it if and only if the
      message is simple or a collection of run length 0. */
  lemma ReportedSizeIff(m: Message)
    requires Encodable(m)
    ensures ReportedSize(m) <= |Emit(m).bytes|
    ensures ReportedSize(m) == |Emit(m).bytes| <==> ReportsExactly(m)
  {
    match m
    case List(_, _, list, _) => ListSize(list);
    case Pairs(_, _, pairs) => PairsSize(pairs);
    case _ =>
  }
}
