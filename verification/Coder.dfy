/** The coder of protocol/message/coder.go step by step: reading a line byte by byte, copying a bulk
    body in chunks, and encoding a message onto a writer that may fail at any point. */
module Coder {
  import opened Bytes
  import opened Options
  import opened Decimal
  import opened Codec

  // ---- simpleUnmarshal ----

  predicate EolAt(b: seq<byte>, l: int) { 0 <= l && l + 2 <= |b| && b[l] == CR && b[l + 1] == LF }

  /** `l` is the length of the shortest payload, of at least one byte, that a line end follows. */
  predicate IsPayload(b: seq<byte>, l: int) {
    l >= 1 && EolAt(b, l) && forall j | 1 <= j < l :: !EolAt(b, j)
  }

  /** simpleUnmarshal on the stream `b`. */
  method SimpleUnmarshal(b: seq<byte>) returns (text: seq<byte>, size: nat, ok: bool)
    ensures size <= |b|
    ensures ok ==> IsPayload(b, |text|) && text == b[..|text|] && size == |text| + 2
    ensures !ok ==> text == [] && size == |b| && forall l | l >= 1 :: !EolAt(b, l)
  {
    var buf: seq<byte> := [];
    while |buf| < |b|
      invariant buf <= b
      invariant forall j | 1 <= j <= |buf| - 2 :: !EolAt(b, j)
      decreases |b| - |buf|
    {
      buf := buf + [b[|buf|]];
      if |buf| > 2 {
        var l := |buf| - 2;
        assert buf[l..] == [b[l], b[l + 1]];
        if buf[l..] == EOL { return buf[..l], |buf|, true; }
      }
    }
    return [], |buf|, false;
  }

  /** It recovers a line's text if and only if the text is not empty and holds no line end past its
      first byte. */
  lemma UnmarshalsIff(s: seq<byte>, rest: seq<byte>)
    ensures IsPayload(s + EOL + rest, |s|) <==> s != [] && forall j | j >= 1 :: !EolAt(s, j)
  {
    var b := s + EOL + rest;
    assert EolAt(b, |s|);
    forall j | 1 <= j < |s| ensures EolAt(b, j) <==> EolAt(s, j) {}
  }

  /** So every line that the repaired decoder reads and that is not empty is read as written, and
      the empty line of a null never is. */
  lemma OneLineUnmarshals(s: seq<byte>, rest: seq<byte>)
    requires OneLine(s)
    ensures IsPayload(s + EOL + rest, |s|) <==> s != []
  {
    UnmarshalsIff(s, rest);
    OneLineHasNoEol(s);
  }

  /** The size it then reports, with the kind byte, is the size of the message's encoding. */
  lemma UnmarshalSize(m: Message, rest: seq<byte>)
    requires Encodable(m) && SimpleLine(m).Some? && SimpleLine(m).value != []
    ensures var b := Emit(m).bytes + rest;
            IsPayload(b[1..], |SimpleLine(m).value|) && 1 + (|SimpleLine(m).value| + 2) == |Emit(m).bytes|
  {
    var text := SimpleLine(m).value;
    SimpleLineReads(m);
    EmitSimple(m);
    OneLineUnmarshals(text, rest);
    assert ([KindOf(m)] + text + EOL + rest)[1..] == text + EOL + rest;
  }

  lemma {:induction false} OneLineHasNoEol(s: seq<byte>)
    requires OneLine(s)
    ensures forall j :: !EolAt(s, j)
  {
    if |s| >= 2 {
      OneLineHasNoEol(s[1..]);
      forall j ensures !EolAt(s, j) {
        if j >= 1 { assert EolAt(s, j) == EolAt(s[1..], j - 1); }
      }
    }
  }

  // ---- the writer ----

  /** A writer that refuses when it is told to: the head of `answers` says what it does with the next
      write, accepting it or taking only so many bytes of it. */
  class Writer {
    var out: seq<byte>
    var answers: seq<Option<nat>>
    var refused: nat

    constructor (answers: seq<Option<nat>>)
      ensures out == [] && refused == 0 && this.answers == answers
    {
      out, refused := [], 0;
      this.answers := answers;
    }

    method Write(p: seq<byte>) returns (n: nat, ok: bool)
      modifies this
      ensures n <= |p| && out == old(out) + p[..n]
      ensures ok ==> n == |p|
      ensures refused == old(refused) + if ok then 0 else 1
    {
      var answer := if answers == [] then None else answers[0];
      answers := if answers == [] then [] else answers[1..];
      match answer {
        case None =>
          n, ok := |p|, true;
        case Some(k) =>
          n, ok := if k < |p| then k else |p|, false;
          refused := refused + 1;
      }
      out := out + p[..n];
    }
  }

  /** What a call that was to emit `out` has got onto the writer: all of it if it ended well, and
      otherwise a beginning of it, cut short only by a writer that refused. */
  ghost predicate Progress(out: Output, emitted: seq<byte>, ok: bool, refused: bool) {
    && emitted <= out.bytes
    && (ok ==> emitted == out.bytes && out.ok)
    && (!refused ==> emitted == out.bytes && ok == out.ok)
  }

  lemma ThenStop(a: Output, b: Output, e: seq<byte>, refused: bool)
    requires Progress(a, e, false, refused)
    ensures Progress(Then(a, b), e, false, refused)
  {}

  lemma ThenGo(a: Output, b: Output, e: seq<byte>, e': seq<byte>, ok: bool, refused: bool)
    requires Progress(a, e, true, false) && Progress(b, e', ok, refused)
    ensures Progress(Then(a, b), e + e', ok, refused)
  {}

  lemma ThenAssoc(a: Output, b: Output, c: Output)
    ensures Then(Then(a, b), c) == Then(a, Then(b, c))
  {
    assert a.bytes + b.bytes + c.bytes == a.bytes + (b.bytes + c.bytes);
  }

  /** What a call has got onto the writer since it stood at `before`. */
  ghost predicate Since(out: Output, before: seq<byte>, w: Writer, refused: nat, total: nat, ok: bool)
    reads w
  {
    && before <= w.out && total == |w.out| - |before|
    && (ok ==> w.refused == refused)
    && Progress(out, w.out[|before|..], ok, w.refused != refused)
  }
  // ---- writeBulk ----

  /** The chunk size that is set, or else its default. */
  function ChunkLimit(chunkSize: int): int { if chunkSize < 1 then 409 else chunkSize }

  /** The size of the next chunk: the greatest that exceeds neither the run nor the chunk size. */
  function EmptyBuffer(chunkSize: int, runLength: int): (size: int)
    requires runLength > 0
    ensures 1 <= size <= runLength && size <= ChunkLimit(chunkSize)
    ensures size == runLength || size == ChunkLimit(chunkSize)
  {
    var bufferSize := if chunkSize < 1 then 409 else chunkSize;
    if runLength > bufferSize then bufferSize else runLength
  }

  function Min(a: int, b: int): int { if a < b then a else b }

  /** The loop of writeBulk, from a reader that holds `body`, gives at most `short(i) + 1` bytes on its
      i-th read, and an error once it has nothing left; if `fails(i)`, it gives an error together
      with those bytes, and the loop drops them. It takes no more than the run length from the
      reader, in at most that many reads. */
  method CopyBody(run: int64, body: seq<byte>, chunkSize: int, short: nat -> nat, fails: nat -> bool, w: Writer)
    returns (total: nat, ok: bool, taken: nat, calls: nat)
    modifies w
    ensures total <= |body| && total <= Count(run) && w.out == old(w.out) + body[..total]
    ensures ok ==> total == Count(run) && w.refused == old(w.refused)
    ensures total <= taken <= Count(run) && calls <= taken <= |body|
    ensures forall i | 0 <= i < calls - 1 :: !fails(i)
    ensures calls > 0 && fails(calls - 1) ==> !ok && total < taken && w.refused == old(w.refused)
    ensures !ok && w.refused == old(w.refused) && !(calls > 0 && fails(calls - 1)) ==> total == |body| < run
  {
    var left: int := run;
    total, taken, calls := 0, 0, 0;
    while left > 0
      invariant left == run - taken && taken <= Count(run) && total == taken <= |body|
      invariant w.out == old(w.out) + body[..taken] && w.refused == old(w.refused)
      invariant calls <= taken && forall i | 0 <= i < calls :: !fails(i)
    {
      var size := EmptyBuffer(chunkSize, left);
      if taken == |body| { return total, false, taken, calls; }
      var got := Min(short(calls) + 1, Min(size, |body| - taken));
      if fails(calls) { return total, false, taken + got, calls + 1; }
      var chunk := body[taken..taken + got];
      var n: nat;
      n, ok := w.Write(chunk);
      Copied(body, taken, got, n);
      calls, taken, total := calls + 1, taken + got, total + n;
      if !ok { return; }
      left := left - n;
    }
    ok := true;
  }

  lemma Copied(body: seq<byte>, taken: nat, got: nat, n: nat)
    requires taken + got <= |body| && n <= got
    ensures body[..taken] + body[taken..taken + got][..n] == body[..taken + n]
  {}

  /** writeBulk. Of a reader that keeps its errors apart from its bytes it writes what EmitBody says, up
      to where the writer refuses; of any reader, a beginning of that. */
  method WriteBulk(run: int64, body: seq<byte>, chunkSize: int, short: nat -> nat, fails: nat -> bool, w: Writer)
    returns (total: nat, ok: bool)
    modifies w
    ensures old(w.out) <= w.out && total == |w.out| - |old(w.out)|
    ensures w.out[|old(w.out)|..] <= EmitBody(run, body).bytes
    ensures ok ==> w.out[|old(w.out)|..] == EmitBody(run, body).bytes && w.refused == old(w.refused)
    ensures (forall i :: !fails(i)) ==> Since(EmitBody(run, body), old(w.out), w, old(w.refused), total, ok)
  {
    var taken, calls;
    total, ok, taken, calls := CopyBody(run, body, chunkSize, short, fails, w);
    assert w.out[|old(w.out)|..] == body[..total];
    if !ok {
      BodyPrefix(run, body, total);
      return;
    }
    var n: nat;
    n, ok := w.Write(EOL);
    assert w.out[|old(w.out)|..] == body[..total] + EOL[..n];
    total := total + n;
  }

  lemma BodyPrefix(run: int64, body: seq<byte>, n: nat)
    requires n <= |body| && n <= Count(run)
    ensures body[..n] <= EmitBody(run, body).bytes
  {}

  // ---- Encode ----

  /** A call that went well, followed by another one. */
  lemma SinceGo(a: Output, b: Output, before: seq<byte>, mid: seq<byte>, w: Writer, refused: nat, n: nat, ok: bool)
    requires before <= mid && Progress(a, mid[|before|..], true, false) && Since(b, mid, w, refused, n, ok)
    ensures Since(Then(a, b), before, w, refused, |mid| - |before| + n, ok)
  {
    ThenGo(a, b, mid[|before|..], w.out[|mid|..], ok, w.refused != refused);
    assert w.out[|before|..] == mid[|before|..] + w.out[|mid|..];
  }

  lemma SinceStop(a: Output, b: Output, before: seq<byte>, w: Writer, refused: nat, n: nat)
    requires Since(a, before, w, refused, n, false)
    ensures Since(Then(a, b), before, w, refused, n, false)
  {
    ThenStop(a, b, w.out[|before|..], w.refused != refused);
  }

  /** One write. */
  method Put(p: seq<byte>, w: Writer) returns (n: nat, ok: bool)
    modifies w
    ensures Since(Output(p, true), old(w.out), w, old(w.refused), n, ok)
  {
    n, ok := w.Write(p);
    assert w.out[|old(w.out)|..] == p[..n];
  }

  /** Two writes in turn. */
  method PutTwo(p: seq<byte>, q: seq<byte>, w: Writer) returns (total: nat, ok: bool)
    modifies w
    ensures Since(Output(p + q, true), old(w.out), w, old(w.refused), total, ok)
  {
    total, ok := Put(p, w);
    if !ok {
      SinceStop(Output(p, true), Output(q, true), old(w.out), w, old(w.refused), total);
      return;
    }
    ghost var mid := w.out;
    var n: nat;
    n, ok := Put(q, w);
    SinceGo(Output(p, true), Output(q, true), old(w.out), mid, w, old(w.refused), n, ok);
    total := total + n;
  }

  /** The rest of an aggregate's header, after the kind byte. */
  method WriteLength(m: Message, w: Writer) returns (total: nat, ok: bool)
    requires m.Bulk? || m.Verbatim? || m.List? || m.Pairs?
    modifies w
    ensures Since(Output(FormatInt(m.run) + EOL + TagLine(m), true), old(w.out), w, old(w.refused), total, ok)
  {
    ghost var length := Output(FormatInt(m.run) + EOL, true);
    ghost var tag := Output(TagLine(m), true);
    total, ok := PutTwo(FormatInt(m.run), EOL, w);
    if !ok {
      SinceStop(length, tag, old(w.out), w, old(w.refused), total);
      return;
    }
    if m.Verbatim? {
      ghost var mid := w.out;
      var n: nat;
      n, ok := PutTwo(m.tag, EOL, w);
      SinceGo(length, tag, old(w.out), mid, w, old(w.refused), n, ok);
      total := total + n;
    } else {
      assert FormatInt(m.run) + EOL + [] == FormatInt(m.run) + EOL;
    }
  }

  /** What follows the header of an aggregate. */
  function Inner(m: Message): Output {
    match m
    case Bulk(_, run, body) => EmitBody(run, body)
    case Verbatim(run, _, body) => EmitBody(run, body)
    case List(_, _, list, broken) => Then(EmitList(list), Output([], !broken))
    case Pairs(_, _, pairs) => EmitPairs(pairs)
    case _ => Output([], true)
  }

  /** What follows the kind byte. */
  function Contents(m: Message): Output {
    match m
    case Unknown(_) => Output([], true)
    case Error(_) => Output([], false)
    case Bulk(_, _, _) => Then(Output(FormatInt(m.run) + EOL + TagLine(m), true), Inner(m))
    case Verbatim(_, _, _) => Then(Output(FormatInt(m.run) + EOL + TagLine(m), true), Inner(m))
    case List(_, _, _, _) => Then(Output(FormatInt(m.run) + EOL + TagLine(m), true), Inner(m))
    case Pairs(_, _, _) => Then(Output(FormatInt(m.run) + EOL + TagLine(m), true), Inner(m))
    case _ => Output(SimpleLine(m).value + EOL, true)
  }

  lemma HeaderThen(kind: seq<byte>, line: seq<byte>, tag: seq<byte>, inner: Output)
    ensures Then(Output(kind + line + EOL + tag, true), inner)
         == Then(Output(kind, true), Then(Output(line + EOL + tag, true), inner))
  {
    assert kind + line + EOL + tag + inner.bytes == kind + (line + EOL + tag + inner.bytes);
  }

  lemma EmitIs(m: Message)
    ensures Emit(m) == Then(Output([KindOf(m)], true), Contents(m))
  {
    if m.Bulk? || m.Verbatim? || m.List? || m.Pairs? {
      HeaderThen([KindOf(m)], FormatInt(m.run), TagLine(m), Inner(m));
      if m.List? { ThenAssoc(Output(Header(m), true), EmitList(m.list), Output([], !m.broken)); }
    } else if SimpleLine(m).Some? {
      EmitSimple(m);
      Assoc([KindOf(m)], SimpleLine(m).value, EOL);
    }
  }

  /** Encode. The count it returns is the number of bytes that the writer accepted; they are the whole
      encoding if it succeeds, and a beginning of it otherwise. */
  method Encode(m: Message, chunkSize: int, short: nat -> nat, w: Writer) returns (total: nat, ok: bool)
    modifies w
    ensures Since(Emit(m), old(w.out), w, old(w.refused), total, ok)
    decreases m, 2
  {
    EmitIs(m);
    ghost var kind := Output([KindOf(m)], true);
    total, ok := Put([KindOf(m)], w);
    if !ok {
      SinceStop(kind, Contents(m), old(w.out), w, old(w.refused), total);
      return;
    }
    ghost var mid := w.out;
    var n: nat;
    n, ok := EncodeContents(m, chunkSize, short, w);
    SinceGo(kind, Contents(m), old(w.out), mid, w, old(w.refused), n, ok);
    total := total + n;
  }

  /** The rest of Encode, by category. */
  method EncodeContents(m: Message, chunkSize: int, short: nat -> nat, w: Writer) returns (total: nat, ok: bool)
    modifies w
    ensures Since(Contents(m), old(w.out), w, old(w.refused), total, ok)
    decreases m, 1
  {
    match CategoryOf(KindOf(m)) {
      case NoCategory => return 0, true;
      case Simple =>
        if m.Error? { return 0, false; }
        total, ok := Put(SimpleLine(m).value + EOL, w);
      case Aggregate =>
        ghost var length := Output(FormatInt(m.run) + EOL + TagLine(m), true);
        total, ok := WriteLength(m, w);
        if !ok {
          SinceStop(length, Inner(m), old(w.out), w, old(w.refused), total);
          return;
        }
        ghost var mid := w.out;
        var n: nat;
        n, ok := EncodeInner(m, chunkSize, short, w);
        SinceGo(length, Inner(m), old(w.out), mid, w, old(w.refused), n, ok);
        total := total + n;
    }
  }

  method EncodeInner(m: Message, chunkSize: int, short: nat -> nat, w: Writer) returns (total: nat, ok: bool)
    requires m.Bulk? || m.Verbatim? || m.List? || m.Pairs?
    modifies w
    ensures Since(Inner(m), old(w.out), w, old(w.refused), total, ok)
    decreases m, 0
  {
    match m {
      case Bulk(_, run, body) => total, ok := WriteBulk(run, body, chunkSize, short, _ => false, w);
      case Verbatim(run, _, body) => total, ok := WriteBulk(run, body, chunkSize, short, _ => false, w);
      case Pairs(_, _, pairs) => total, ok := EncodePairs(pairs, chunkSize, short, w);
      case List(_, _, list, broken) =>
        total, ok := EncodeList(list, chunkSize, short, w);
        if ok { ok := !broken; }
    }
  }

  /** The loop of Encode over a collection's messages. */
  method EncodeList(list: seq<Message>, chunkSize: int, short: nat -> nat, w: Writer) returns (total: nat, ok: bool)
    modifies w
    ensures Since(EmitList(list), old(w.out), w, old(w.refused), total, ok)
    decreases list, 0
  {
    total := 0;
    for i := 0 to |list|
      invariant old(w.out) <= w.out && total == |w.out| - |old(w.out)| && w.refused == old(w.refused)
      invariant EmitList(list) == Then(Output(w.out[|old(w.out)|..], true), EmitList(list[i..]))
    {
      ghost var done, mid := Output(w.out[|old(w.out)|..], true), w.out;
      var n: nat;
      assert list[i..][0] == list[i] && list[i..][1..] == list[i + 1..];
      n, ok := Encode(list[i], chunkSize, short, w);
      total := total + n;
      if !ok {
        SinceStop(Emit(list[i]), EmitList(list[i + 1..]), mid, w, old(w.refused), n);
        SinceGo(done, EmitList(list[i..]), old(w.out), mid, w, old(w.refused), n, ok);
        return;
      }
      ThenAssoc(done, Emit(list[i]), EmitList(list[i + 1..]));
      assert w.out[|old(w.out)|..] == done.bytes + Emit(list[i]).bytes;
    }
    ok := true;
  }

  /** The loop of Encode over a map's pairs. */
  method EncodePairs(pairs: seq<Pair>, chunkSize: int, short: nat -> nat, w: Writer) returns (total: nat, ok: bool)
    modifies w
    ensures Since(EmitPairs(pairs), old(w.out), w, old(w.refused), total, ok)
    decreases pairs, 0
  {
    total := 0;
    for i := 0 to |pairs|
      invariant old(w.out) <= w.out && total == |w.out| - |old(w.out)| && w.refused == old(w.refused)
      invariant EmitPairs(pairs) == Then(Output(w.out[|old(w.out)|..], true), EmitPairs(pairs[i..]))
    {
      ghost var done, mid := Output(w.out[|old(w.out)|..], true), w.out;
      var n: nat;
      assert pairs[i..][0] == pairs[i] && pairs[i..][1..] == pairs[i + 1..];
      n, ok := EncodePair(pairs[i], chunkSize, short, w);
      total := total + n;
      if !ok {
        SinceStop(EmitPair(pairs[i]), EmitPairs(pairs[i + 1..]), mid, w, old(w.refused), n);
        SinceGo(done, EmitPairs(pairs[i..]), old(w.out), mid, w, old(w.refused), n, ok);
        return;
      }
      ThenAssoc(done, EmitPair(pairs[i]), EmitPairs(pairs[i + 1..]));
      assert w.out[|old(w.out)|..] == done.bytes + EmitPair(pairs[i]).bytes;
    }
    ok := true;
  }

  method EncodePair(p: Pair, chunkSize: int, short: nat -> nat, w: Writer) returns (total: nat, ok: bool)
    modifies w
    ensures Since(EmitPair(p), old(w.out), w, old(w.refused), total, ok)
    decreases p, 3
  {
    total, ok := Encode(p.key, chunkSize, short, w);
    if !ok {
      SinceStop(Emit(p.key), Emit(p.value), old(w.out), w, old(w.refused), total);
      return;
    }
    ghost var mid := w.out;
    var n: nat;
    n, ok := Encode(p.value, chunkSize, short, w);
    SinceGo(Emit(p.key), Emit(p.value), old(w.out), mid, w, old(w.refused), n, ok);
    total := total + n;
  }

  // ---- chunk ----

  /** chunk: a stream of messages turned into pairs. A message that comes with an error, told by
      `fails`, has that error yielded at once, with whatever the pair holds by then, and is paired
      up all the same. */
  method ChunkStream(list: seq<Message>, fails: nat -> bool) returns (pairs: seq<Pair>, errors: set<nat>)
    ensures pairs == Chunk(list)
    ensures errors == Failing(fails, |list|)
  {
    pairs, errors := [], {};
    var key := Null;
    for i := 0 to |list|
      invariant 0 <= i - 2 * |pairs| <= 1
      invariant i - 2 * |pairs| == 1 ==> key == list[i - 1]
      invariant Chunked(list, pairs)
      invariant errors == Failing(fails, i)
    {
      FailingNext(fails, i);
      if fails(i) { errors := errors + {i}; }
      if i % 2 == 0 {
        key := list[i];
      } else {
        ChunkGrows(list, pairs, key, i);
        pairs := pairs + [Pair(key, list[i])];
      }
    }
    ChunkEnds(list, pairs);
  }

  lemma ChunkEnds(list: seq<Message>, pairs: seq<Pair>)
    requires |list| - 2 * |pairs| <= 1 && Chunked(list, pairs)
    ensures pairs == Chunk(list)
  {
    assert pairs + [] == pairs;
  }

  /** The pairs are those of the messages so far. */
  ghost predicate Chunked(list: seq<Message>, pairs: seq<Pair>) {
    2 * |pairs| <= |list| && pairs + Chunk(list[2 * |pairs|..]) == Chunk(list)
  }

  /** The positions, of the first `n`, that come with an error. */
  ghost function Failing(fails: nat -> bool, n: nat): set<nat> {
    set i: nat | i < n && fails(i)
  }

  lemma FailingNext(fails: nat -> bool, n: nat)
    ensures Failing(fails, n + 1) == Failing(fails, n) + if fails(n) then {n} else {}
  {}

  lemma ChunkGrows(list: seq<Message>, pairs: seq<Pair>, key: Message, i: nat)
    requires i < |list| && i == 2 * |pairs| + 1 && key == list[i - 1] && Chunked(list, pairs)
    ensures Chunked(list, pairs + [Pair(key, list[i])])
  {
    ChunkNext(list[2 * |pairs|..]);
    assert list[2 * |pairs|..][2..] == list[2 * |pairs| + 2..];
  }

  lemma ChunkNext(list: seq<Message>)
    requires |list| >= 2
    ensures Chunk(list) == [Pair(list[0], list[1])] + Chunk(list[2..])
  {}
}
