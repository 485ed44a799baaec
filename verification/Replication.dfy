/** The loop of anarchoredis/replication/replication.go that follows the replication stream: which
    commands it hands on to the log, and how it accounts for the replication offset. */
module Replication {
  import opened Bytes
  import opened Options
  import opened Decimal
  import opened Codec

  type Word = seq<byte>

  const FULLRESYNC: Word := [70, 85, 76, 76, 82, 69, 83, 89, 78, 67]
  const PING: Word := [80, 73, 78, 71]

  /** A message off the stream: a simple string split at its spaces, an array of strings, an error
      message, or anything else; with the size it reports. */
  datatype Msg =
    | Line(words: seq<Word>, size: int)
    | Command(args: seq<Word>, size: int)
    | Failure(size: int)
    | Other(size: int)

  /** What the handler does with a command: append it and unlock its keys, or fail before or after
      the append. */
  datatype Handling = Handled | AppendFailed | UnlockFailed

  /** Why the loop ends: the stream does, or a message makes it return an error or panic. */
  datatype Stop = EndOfStream | Returned | Panicked

  const TWO_63: int := 0x8000_0000_0000_0000

  /** The int64 that wrap-around leaves of a sum. */
  function Wrap(x: int): int64 { (x + TWO_63) % TWO_64 - TWO_63 }

  predicate IsResync(m: Msg) { m.Line? && m.words != [] && m.words[0] == FULLRESYNC }

  /** The offset that a resync line gives. */
  function Base(m: Msg): Option<int64>
    requires IsResync(m)
  {
    if |m.words| < 3 then None else ParseInt(m.words[2])
  }

  predicate IsHandled(m: Msg) { m.Command? && m.args != [] && m.args[0] != PING }

  /** The loop gets past the message. */
  predicate Completes(m: Msg, h: Handling) {
    && !m.Failure?
    && (IsResync(m) ==> Base(m).Some?)
    && (m.Line? ==> m.words != [])
    && (m.Command? ==> m.args != [] && (m.args[0] == PING || h.Handled?))
  }

  function Sizes(msgs: seq<Msg>): int {
    if msgs == [] then 0 else Sizes(msgs[..|msgs| - 1]) + msgs[|msgs| - 1].size
  }

  /** The commands handed on, in stream order. */
  function Commands(msgs: seq<Msg>): seq<Msg> {
    if msgs == [] then []
    else
      var last := msgs[|msgs| - 1];
      Commands(msgs[..|msgs| - 1]) + if IsHandled(last) then [last] else []
  }

  /** The position of the last resync line, or -1. */
  function LastResync(msgs: seq<Msg>): (r: int)
    ensures -1 <= r < |msgs|
    ensures r >= 0 ==> IsResync(msgs[r])
  {
    if msgs == [] then -1
    else if IsResync(msgs[|msgs| - 1]) then |msgs| - 1
    else LastResync(msgs[..|msgs| - 1])
  }

  lemma {:induction false} LastResyncIsLast(msgs: seq<Msg>)
    ensures forall i | LastResync(msgs) < i < |msgs| :: !IsResync(msgs[i])
  {
    if msgs != [] && !IsResync(msgs[|msgs| - 1]) { LastResyncIsLast(msgs[..|msgs| - 1]); }
  }

  /** The offset after `msgs`: that of the last resync line, or else the initial one, and the sizes
      of all messages since, that line's included. */
  function OffsetAfter(start: int64, msgs: seq<Msg>): int64 {
    var r := LastResync(msgs);
    if r < 0 then Wrap(start + Sizes(msgs))
    else Wrap((if Base(msgs[r]).Some? then Base(msgs[r]).value else 0) + Sizes(msgs[r..]))
  }

  /** The replication id after `msgs`: that of the last resync line that has one. */
  function IdAfter(start: Word, msgs: seq<Msg>): Word {
    if msgs == [] then start
    else
      var last := msgs[|msgs| - 1];
      if IsResync(last) && |last.words| >= 2 then last.words[1] else IdAfter(start, msgs[..|msgs| - 1])
  }

  lemma WrapAdd(x: int, y: int)
    ensures Wrap(Wrap(x) + y) == Wrap(x + y)
  {
    var q := (x + TWO_63) / TWO_64;
    assert Wrap(x) == x - q * TWO_64;
    assert (x - q * TWO_64 + y + TWO_63) % TWO_64 == (x + y + TWO_63) % TWO_64 by {
      ModShift(x + y + TWO_63, q);
    }
  }

  lemma {:induction false} ModShift(a: int, q: int)
    ensures (a - q * TWO_64) % TWO_64 == a % TWO_64
    decreases if q < 0 then -q else q
  {
    if q > 0 { ModShift(a - TWO_64, q - 1); } else if q < 0 { ModShift(a + TWO_64, q + 1); }
  }

  lemma SizesSnoc(msgs: seq<Msg>, m: Msg)
    ensures Sizes(msgs + [m]) == Sizes(msgs) + m.size
  {
    assert (msgs + [m])[..|msgs|] == msgs;
  }

  /** What one completed message does to the offset. */
  lemma OffsetStep(start: int64, msgs: seq<Msg>, m: Msg)
    requires IsResync(m) ==> Base(m).Some?
    ensures OffsetAfter(start, msgs + [m])
         == Wrap((if IsResync(m) then Base(m).value else OffsetAfter(start, msgs)) + m.size)
  {
    var all, r := msgs + [m], LastResync(msgs);
    assert all[..|msgs|] == msgs;
    if IsResync(m) {
      assert all[|msgs|..] == [] + [m];
      SizesSnoc([], m);
    } else if r < 0 {
      SizesSnoc(msgs, m);
      WrapAdd(start + Sizes(msgs), m.size);
    } else {
      assert all[r..] == msgs[r..] + [m];
      SizesSnoc(msgs[r..], m);
      var base := if Base(msgs[r]).Some? then Base(msgs[r]).value else 0;
      WrapAdd(base + Sizes(msgs[r..]), m.size);
    }
  }

  /** The subscriber's fields, and what the messages of a stream make of them. */
  datatype Account = Account(offset: int64, id: Word, log: seq<Msg>)

  function AccountAfter(start: Account, msgs: seq<Msg>): Account {
    Account(OffsetAfter(start.offset, msgs), IdAfter(start.id, msgs), start.log + Commands(msgs))
  }

  /** What one completed message makes of them. */
  function Turn(a: Account, m: Msg): Account {
    Account(Wrap((if !IsResync(m) then a.offset else if Base(m).Some? then Base(m).value else 0) + m.size),
            if IsResync(m) && |m.words| >= 2 then m.words[1] else a.id,
            a.log + if IsHandled(m) then [m] else [])
  }

  function Turns(start: Account, msgs: seq<Msg>): Account {
    if msgs == [] then start else Turn(Turns(start, msgs[..|msgs| - 1]), msgs[|msgs| - 1])
  }

  lemma AccountStep(start: Account, msgs: seq<Msg>, m: Msg)
    requires IsResync(m) ==> Base(m).Some?
    ensures AccountAfter(start, msgs + [m]) == Turn(AccountAfter(start, msgs), m)
  {
    OffsetStep(start.offset, msgs, m);
    IdSnoc(start.id, msgs, m);
    LogSnoc(start.log, msgs, m);
  }

  ghost predicate Resyncs(msgs: seq<Msg>) {
    forall i | 0 <= i < |msgs| && IsResync(msgs[i]) :: Base(msgs[i]).Some?
  }

  /** Message by message comes to the closed form. */
  lemma {:induction false} TurnsAre(start: Account, msgs: seq<Msg>)
    requires Resyncs(msgs)
    ensures Turns(start, msgs) == AccountAfter(start, msgs)
  {
    if msgs != [] {
      var n := |msgs| - 1;
      TurnsAre(start, msgs[..n]);
      AccountStep(start, msgs[..n], msgs[n]);
      assert msgs[..n] + [msgs[n]] == msgs;
    }
  }

  lemma LogSnoc(log: seq<Msg>, msgs: seq<Msg>, m: Msg)
    ensures log + Commands(msgs + [m]) == log + Commands(msgs) + if IsHandled(m) then [m] else []
  {
    CommandsSnoc(msgs, m);
  }

  class Subscriber {
    var offset: int64
    var replicationId: Word
    var log: seq<Msg>

    constructor ()
      ensures offset == 0 && replicationId == [] && log == []
    {
      offset, replicationId, log := 0, [], [];
    }

    /** One turn of the loop, up to where it adds the message's size: the stop it leads to, or none. */
    method Dispatch(m: Msg, h: Handling) returns (stop: Option<Stop>)
      modifies this
      ensures stop.None? <==> Completes(m, h)
      ensures stop.Some? ==> !stop.value.EndOfStream?
      ensures offset == if IsResync(m) && Completes(m, h) then Base(m).value else old(offset)
      ensures log == old(log) + if IsHandled(m) && !h.AppendFailed? then [m] else []
      ensures replicationId == if IsResync(m) && |m.words| >= 2 then m.words[1] else old(replicationId)
    {
      match m {
        case Line(words, _) =>
          if words == [] { return Some(Panicked); }
          if words[0] == FULLRESYNC {
            if |words| < 2 { return Some(Panicked); }
            replicationId := words[1];
            if |words| < 3 { return Some(Panicked); }
            var base := ParseInt(words[2]);
            if base.None? { return Some(Returned); }
            offset := base.value;
          }
        case Command(args, _) =>
          if args == [] { return Some(Panicked); }
          if args[0] != PING {
            if h.AppendFailed? { return Some(Returned); }
            log := log + [m];
            if h.UnlockFailed? { return Some(Returned); }
          }
        case Failure(_) => return Some(Returned);
        case Other(_) =>
      }
      stop := None;
    }

    /** One whole turn of the loop. */
    method Follow(m: Msg, h: Handling) returns (stop: Option<Stop>)
      modifies this
      ensures stop.None? <==> Completes(m, h)
      ensures stop.None? ==>
        Account(offset, replicationId, log) == Turn(Account(old(offset), old(replicationId), old(log)), m)
      ensures stop.Some? ==>
        && !stop.value.EndOfStream? && offset == old(offset)
        && log == old(log) + (if IsHandled(m) && h.UnlockFailed? then [m] else [])
        && replicationId == if IsResync(m) && |m.words| >= 2 then m.words[1] else old(replicationId)
    {
      stop := Dispatch(m, h);
      if stop.None? { offset := Wrap(offset + m.size); }
    }

    /** StreamUpdates over a stream, with what the handler does with each message. At every turn the
        log holds the handled commands completed so far, in order; when the loop ends it may hold
        one more, whose keys could not be unlocked. */
    method StreamUpdates(stream: seq<Msg>, handler: nat -> Handling) returns (stop: Stop, n: nat)
      modifies this
      ensures n <= |stream| && forall i | 0 <= i < n :: Completes(stream[i], handler(i))
      ensures if stop.EndOfStream? then n == |stream| else n < |stream| && !Completes(stream[n], handler(n))
      ensures offset == OffsetAfter(old(offset), stream[..n])
      ensures log == old(log) + Commands(stream[..n]) +
                if n < |stream| && IsHandled(stream[n]) && handler(n).UnlockFailed? then [stream[n]] else []
      ensures replicationId == IdAfter(old(replicationId), if n < |stream| then stream[..n + 1] else stream)
    {
      n := 0;
      ghost var start := Account(offset, replicationId, log);
      while n < |stream|
        invariant n <= |stream| && forall i | 0 <= i < n :: Completes(stream[i], handler(i))
        invariant Account(offset, replicationId, log) == Turns(start, stream[..n])
      {
        var early := Follow(stream[n], handler(n));
        if early.Some? {
          TurnsAre(start, stream[..n]);
          IdNext(start.id, stream, n);
          return early.value, n;
        }
        assert stream[..n + 1][..n] == stream[..n];
        n := n + 1;
      }
      TurnsAre(start, stream[..n]);
      assert stream[..n] == stream;
      stop := EndOfStream;
    }
  }

  lemma IdSnoc(start: Word, msgs: seq<Msg>, m: Msg)
    ensures IdAfter(start, msgs + [m])
         == if IsResync(m) && |m.words| >= 2 then m.words[1] else IdAfter(start, msgs)
  {
    assert (msgs + [m])[..|msgs|] == msgs;
  }

  lemma IdNext(start: Word, stream: seq<Msg>, n: nat)
    requires n < |stream|
    ensures IdAfter(start, stream[..n + 1])
         == if IsResync(stream[n]) && |stream[n].words| >= 2 then stream[n].words[1] else IdAfter(start, stream[..n])
  {
    assert stream[..n + 1] == stream[..n] + [stream[n]];
    IdSnoc(start, stream[..n], stream[n]);
  }

  lemma CommandsSnoc(msgs: seq<Msg>, m: Msg)
    ensures Commands(msgs + [m]) == Commands(msgs) + if IsHandled(m) then [m] else []
  {
    assert (msgs + [m])[..|msgs|] == msgs;
  }

  // ---- what the account comes to ----

  /** Wrapping leaves an int64 that differs by a multiple of 2^64. */
  lemma WrapIs(x: int)
    ensures (x - Wrap(x)) % TWO_64 == 0
    ensures -TWO_63 <= x < TWO_63 ==> Wrap(x) == x
  {
    var q := (x + TWO_63) / TWO_64;
    assert x - Wrap(x) == q * TWO_64;
    ModShift(q * TWO_64, q);
  }

  /** Any command with a name, but a ping, is handed on. */
  predicate IsCommand(m: Msg) { m.Command? && |m.args| > 0 && m.args[0] != Ascii("PING") }

  lemma PingIs()
    ensures PING == Ascii("PING") && FULLRESYNC == Ascii("FULLRESYNC")
  {
    assert Ascii("PING") == [80, 73, 78, 71];
    assert Ascii("FULLRESYNC") == [70, 85, 76, 76, 82, 69, 83, 89, 78, 67];
  }

  /** `at` lists, in order, the positions of the commands handed on, and `commands` the commands there. */
  ghost predicate Positions(msgs: seq<Msg>, at: seq<nat>, commands: seq<Msg>) {
    && (forall j, k | 0 <= j < k < |at| :: at[j] < at[k])
    && (forall i | 0 <= i < |msgs| && IsCommand(msgs[i]) :: i in at)
    && |commands| == |at|
    && (forall j | 0 <= j < |at| :: at[j] < |msgs| && IsCommand(msgs[at[j]]) && commands[j] == msgs[at[j]])
  }

  lemma PositionsSnoc(msgs: seq<Msg>, at: seq<nat>, commands: seq<Msg>, m: Msg)
    requires Positions(msgs, at, commands)
    ensures if IsCommand(m) then Positions(msgs + [m], at + [|msgs|], commands + [m]) else Positions(msgs + [m], at, commands)
  {
    assert forall i | 0 <= i < |msgs| :: (msgs + [m])[i] == msgs[i];
    if IsCommand(m) {
      var at' := at + [|msgs|];
      assert at'[|at|] == |msgs|;
      forall i | 0 <= i < |msgs| && IsCommand(msgs[i]) ensures i in at' { assert i in at; }
    }
  }

  /** The commands handed on are those at these positions, in stream order. */
  lemma {:induction false} CommandsAre(msgs: seq<Msg>) returns (at: seq<nat>)
    ensures Positions(msgs, at, Commands(msgs))
  {
    at := [];
    if msgs != [] {
      PingIs();
      var n := |msgs| - 1;
      at := CommandsAre(msgs[..n]);
      PositionsSnoc(msgs[..n], at, Commands(msgs[..n]), msgs[n]);
      assert msgs[..n] + [msgs[n]] == msgs;
      CommandsSnoc(msgs[..n], msgs[n]);
      assert Commands(msgs[..n]) + [] == Commands(msgs[..n]);
      if IsCommand(msgs[n]) { at := at + [n]; }
    }
  }

  /** After a line that gives an id and an offset, with no other such line since, the id is that one and
      the offset is that number and the sizes of the line and of all messages since. */
  lemma {:induction false} ResyncIs(start: Account, before: seq<Msg>, id: Word, n: int64, size: int, since: seq<Msg>)
    requires forall i | 0 <= i < |since| :: !IsResync(since[i])
    ensures var line := Line([Ascii("FULLRESYNC"), id, FormatInt(n)], size);
            var a := AccountAfter(start, before + [line] + since);
            a.offset == Wrap(n + size + Sizes(since)) && a.id == id
  {
    var line := Line([Ascii("FULLRESYNC"), id, FormatInt(n)], size);
    PingIs();
    ParseFormatInt(n);
    if since == [] {
      assert before + [line] + [] == before + [line];
      OffsetStep(start.offset, before, line);
      IdSnoc(start.id, before, line);
    } else {
      var k := |since| - 1;
      ResyncIs(start, before, id, n, size, since[..k]);
      var msgs, m := before + [line] + since[..k], since[k];
      assert before + [line] + since == msgs + [m];
      OffsetStep(start.offset, msgs, m);
      IdSnoc(start.id, msgs, m);
      WrapAdd(n + size + Sizes(since[..k]), m.size);
    }
  }

  // ---- the sizes that the offset adds up ----

  function ReportedSizes(msgs: seq<Message>): int {
    if msgs == [] then 0 else ReportedSize(msgs[0]) + ReportedSizes(msgs[1..])
  }

  /** The sizes that the messages report never exceed those of their encodings, and add up to the
      bytes of the stream if and only if every message reports its own exactly: it is simple, or
      a collection of run length 0. */
  lemma {:induction false} SizesExactIff(msgs: seq<Message>)
    requires AllEncodable(msgs)
    ensures ReportedSizes(msgs) <= |EmitList(msgs).bytes|
    ensures ReportedSizes(msgs) == |EmitList(msgs).bytes| <==> forall i | 0 <= i < |msgs| :: ReportsExactly(msgs[i])
    ensures EmitList(msgs).ok
  {
    if msgs != [] {
      RoundTrip(msgs[0], []);
      ReportedSizeIff(msgs[0]);
      SizesExactIff(msgs[1..]);
      assert forall i | 0 < i < |msgs| :: msgs[i] == msgs[1..][i - 1];
      assert (forall i | 0 <= i < |msgs| :: ReportsExactly(msgs[i])) <==>
          ReportsExactly(msgs[0]) && forall i | 0 <= i < |msgs[1..]| :: ReportsExactly(msgs[1..][i]);
    }
  }

  /** The loop sees the messages with the sizes they report. */
  predicate Carries(stream: seq<Msg>, msgs: seq<Message>) {
    |stream| == |msgs| && forall i | 0 <= i < |msgs| :: stream[i].size == ReportedSize(msgs[i])
  }

  function Total(sizes: seq<int>): int {
    if sizes == [] then 0 else sizes[0] + Total(sizes[1..])
  }

  lemma {:induction false} TotalSnoc(sizes: seq<int>, x: int)
    ensures Total(sizes + [x]) == Total(sizes) + x
  {
    if sizes == [] {
      assert [] + [x] == [x] && [x][1..] == [];
    } else {
      assert (sizes + [x])[1..] == sizes[1..] + [x];
      TotalSnoc(sizes[1..], x);
    }
  }

  lemma {:induction false} SizesTotal(stream: seq<Msg>, sizes: seq<int>)
    requires |sizes| == |stream| && forall i | 0 <= i < |stream| :: stream[i].size == sizes[i]
    ensures Sizes(stream) == Total(sizes)
  {
    if stream != [] {
      var n := |stream| - 1;
      SizesTotal(stream[..n], sizes[..n]);
      TotalSnoc(sizes[..n], sizes[n]);
      assert sizes[..n] + [sizes[n]] == sizes;
    }
  }

  lemma {:induction false} ReportedTotal(msgs: seq<Message>, sizes: seq<int>)
    requires |sizes| == |msgs| && forall i | 0 <= i < |msgs| :: sizes[i] == ReportedSize(msgs[i])
    ensures ReportedSizes(msgs) == Total(sizes)
  {
    if msgs != [] {
      assert sizes[0] == ReportedSize(msgs[0]);
      ReportedTotal(msgs[1..], sizes[1..]);
    }
  }

  lemma SizesAreReported(stream: seq<Msg>, msgs: seq<Message>)
    requires Carries(stream, msgs)
    ensures Sizes(stream) == ReportedSizes(msgs)
  {
    var sizes := seq(|stream|, i requires 0 <= i < |stream| => stream[i].size);
    SizesTotal(stream, sizes);
    ReportedTotal(msgs, sizes);
  }

  lemma {:induction false} EncodableSuffix(msgs: seq<Message>, r: nat)
    requires AllEncodable(msgs) && r <= |msgs|
    ensures AllEncodable(msgs[r..])
  {
    if r > 0 {
      EncodableSuffix(msgs[1..], r - 1);
      assert msgs[1..][r - 1..] == msgs[r..];
    }
  }

  /** Where the account begins: at the last resync line, or else at the start of the stream. */
  function From(stream: seq<Msg>): nat { if LastResync(stream) < 0 then 0 else LastResync(stream) }

  function BaseOf(start: int64, stream: seq<Msg>): int64 {
    var r := LastResync(stream);
    if r < 0 then start else if Base(stream[r]).Some? then Base(stream[r]).value else 0
  }

  /** How many bytes of the stream the reported sizes leave out. */
  function Shortfall(msgs: seq<Message>): int { |EmitList(msgs).bytes| - ReportedSizes(msgs) }

  lemma WrapEqualIff(x: int, y: int)
    ensures Wrap(x) == Wrap(y) <==> (y - x) % TWO_64 == 0
  {
    var a, b := x + TWO_63, y + TWO_63;
    var q := a / TWO_64;
    ModShift(b, q);
    assert b - q * TWO_64 == y - x + a % TWO_64;
    SmallMod(y - x, a % TWO_64);
  }

  lemma SmallMod(d: int, c: int)
    requires 0 <= c < TWO_64
    ensures (d + c) % TWO_64 == c <==> d % TWO_64 == 0
  {}

  /** From position `r` on, every message is simple or an empty collection. */
  ghost predicate ExactFrom(msgs: seq<Message>, r: nat) {
    forall i | r <= i < |msgs| :: ReportsExactly(msgs[i])
  }

  lemma {:induction false} ExactSince(msgs: seq<Message>, r: nat)
    requires AllEncodable(msgs) && r <= |msgs|
    ensures Shortfall(msgs[r..]) >= 0
    ensures Shortfall(msgs[r..]) == 0 <==> ExactFrom(msgs, r)
  {
    var since := msgs[r..];
    EncodableSuffix(msgs, r);
    SizesExactIff(since);
    assert forall i | r <= i < |msgs| :: msgs[i] == since[i - r];
    assert forall i | 0 <= i < |since| :: since[i] == msgs[r + i];
  }

  lemma OffsetIs(start: int64, stream: seq<Msg>)
    ensures OffsetAfter(start, stream) == Wrap(BaseOf(start, stream) + Sizes(stream[From(stream)..]))
  {
    assert stream[0..] == stream;
  }

  /** The offset is `n` bytes past its base. */
  predicate OffsetAt(start: int64, stream: seq<Msg>, n: int) {
    OffsetAfter(start, stream) == Wrap(BaseOf(start, stream) + n)
  }

  lemma OffsetAtIff(start: int64, stream: seq<Msg>, n: int)
    ensures OffsetAt(start, stream, n) <==> (n - Sizes(stream[From(stream)..])) % TWO_64 == 0
  {
    OffsetIs(start, stream);
    WrapEqualIff(BaseOf(start, stream) + Sizes(stream[From(stream)..]), BaseOf(start, stream) + n);
  }

  /** The offset that the loop keeps is where the stream has got to, in bytes since its last base, if
      and only if the reported sizes leave out a multiple of 2^64 bytes; short of that many, if
      and only if every message since reports its size exactly. */
  lemma OffsetExactIff(start: int64, stream: seq<Msg>, msgs: seq<Message>)
    requires Carries(stream, msgs) && AllEncodable(msgs)
    ensures var since := msgs[From(stream)..];
            && (OffsetAt(start, stream, |EmitList(since).bytes|) <==> Shortfall(since) % TWO_64 == 0)
            && (Shortfall(since) < TWO_64 ==>
                  (OffsetAt(start, stream, |EmitList(since).bytes|) <==> ExactFrom(msgs, From(stream))))
  {
    var r := From(stream);
    OffsetShort(start, stream, msgs[r..]);
    ExactSince(msgs, r);
    MultipleIff(Shortfall(msgs[r..]));
  }

  lemma OffsetShort(start: int64, stream: seq<Msg>, since: seq<Message>)
    requires Carries(stream[From(stream)..], since)
    ensures OffsetAt(start, stream, |EmitList(since).bytes|) <==> Shortfall(since) % TWO_64 == 0
  {
    SizesAreReported(stream[From(stream)..], since);
    OffsetBy(start, stream, |EmitList(since).bytes|, ReportedSizes(since), Shortfall(since));
  }

  lemma OffsetBy(start: int64, stream: seq<Msg>, n: int, sum: int, d: int)
    requires Sizes(stream[From(stream)..]) == sum && n - sum == d
    ensures OffsetAt(start, stream, n) <==> d % TWO_64 == 0
  {
    OffsetAtIff(start, stream, n);
  }

  lemma MultipleIff(d: int)
    requires d >= 0
    ensures d < TWO_64 ==> (d % TWO_64 == 0 <==> d == 0)
  {}
}
