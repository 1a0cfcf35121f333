/**
 * `McpStdioClient`: Content-Length frames read from a buffer that arbitrary reads fill.
 * The reader as a function of the buffer and the reads to come, the reader of the whole
 * stream it must agree with, and exactly when it does.
 */
module McpFrames {
  import opened Basics
  import opened Utf8
  import JsonText
  import JsonRoundTrip

  datatype Failure = TimedOut | Closed | MissingLength | BadLength | BadBody

  datatype Outcome<+V> = Ok(value: V) | Fail(failure: Failure)

  /** Buffered bytes and the results of the reads to come; an empty read is the end of file. */
  datatype Pipe = Pipe(buffer: Bytes, incoming: seq<Bytes>)

  datatype Step<+V> = Step(outcome: Outcome<V>, after: Pipe)

  const CRLF: Bytes := [0x0D, 0x0A]
  const MARKER: Bytes := [0x0D, 0x0A, 0x0D, 0x0A]

  // -------------------------------------------------------- the reader

  lemma OccursInTail(b: Bytes, j: nat, m: Bytes)
    requires b != []
    ensures OccursAt(b[1..], j, m) <==> OccursAt(b, j + 1, m)
  {}

  lemma ContainsInTail(b: Bytes, m: Bytes)
    requires Contains(b, m) && !OccursAt(b, 0, m)
    ensures b != [] && Contains(b[1..], m)
    ensures forall j: nat :: OccursAt(b[1..], j, m) <==> OccursAt(b, j + 1, m)
  {
    var i :| 0 <= i <= |b| && OccursAt(b, i, m);
    forall j: nat ensures OccursAt(b[1..], j, m) <==> OccursAt(b, j + 1, m) { OccursInTail(b, j, m); }
    assert OccursAt(b[1..], i - 1, m);
  }

  /** `bytes.index`. */
  function IndexOf(b: Bytes, m: Bytes): (i: nat)
    requires Contains(b, m)
    ensures OccursAt(b, i, m) && forall j: nat :: j < i ==> !OccursAt(b, j, m)
  {
    if OccursAt(b, 0, m) then 0
    else
      ContainsInTail(b, m);
      var i := IndexOf(b[1..], m);
      assert forall j: nat :: j < i + 1 ==> !OccursAt(b, j, m) by {
        forall j: nat | j < i + 1 ensures !OccursAt(b, j, m) {
          if j > 0 { OccursInTail(b, j - 1, m); }
        }
      }
      1 + i
  }

  /** `os.read(fd, 4096)`. */
  const CAP := 4096

  /** A bound on the reads still to come. */
  function Weight(incoming: seq<Bytes>): nat {
    if incoming == [] then 0 else 1 + |incoming[0]| + Weight(incoming[1..])
  }

  /** `os.read(fd, cap)`: at most `cap` of the bytes at hand; the others stay in the pipe. */
  function Read(incoming: seq<Bytes>, cap: nat): (r: (Bytes, seq<Bytes>))
    requires incoming != [] && incoming[0] != [] && cap > 0
    ensures r.0 != [] && |r.0| <= cap && Weight(r.1) < Weight(incoming)
  {
    var chunk := incoming[0];
    if |chunk| <= cap then (chunk, incoming[1..])
    else
      assert ([chunk[cap..]] + incoming[1..])[1..] == incoming[1..];
      (chunk[..cap], [chunk[cap..]] + incoming[1..])
  }

  function Fill(p: Pipe, cap: nat): (q: Pipe)
    requires p.incoming != [] && p.incoming[0] != [] && cap > 0
    ensures Weight(q.incoming) < Weight(p.incoming)
  {
    var r := Read(p.incoming, cap);
    Pipe(p.buffer + r.0, r.1)
  }

  /** `_read_until`. */
  function ReadUntil(p: Pipe, marker: Bytes): Step<Bytes>
    decreases Weight(p.incoming)
  {
    if Contains(p.buffer, marker) then
      var i := IndexOf(p.buffer, marker);
      Step(Ok(p.buffer[..i]), Pipe(p.buffer[i + |marker|..], p.incoming))
    else if p.incoming == [] then Step(Fail(TimedOut), p)
    else if p.incoming[0] == [] then Step(Fail(Closed), p)
    else ReadUntil(Fill(p, CAP), marker)
  }

  /** Python's `buffer[:n]`, which counts from the end when `n` is negative. */
  function Cut(b: Bytes, n: int): (k: nat)
    requires n <= |b|
    ensures k <= |b|
  {
    if n >= 0 then n else if |b| + n >= 0 then |b| + n else 0
  }

  /** How much `_read_exact` asks for: what is missing, but never less than the cap. */
  function Missing(buffered: nat, n: int): (cap: nat)
    ensures cap >= CAP
  {
    if n - buffered > CAP then n - buffered else CAP
  }

  /** `_read_exact`. */
  function ReadExact(p: Pipe, n: int): Step<Text>
    decreases Weight(p.incoming)
  {
    if |p.buffer| >= n then
      var k := Cut(p.buffer, n);
      var after := Pipe(p.buffer[k..], p.incoming);
      match Decode(p.buffer[..k])
      case Some(t) => Step(Ok(t), after)
      case None => Step(Fail(BadBody), after)
    else if p.incoming == [] then Step(Fail(TimedOut), p)
    else if p.incoming[0] == [] then Step(Fail(Closed), p)
    else ReadExact(Fill(p, Missing(|p.buffer|, n)), n)
  }

  // ----------------------------------------------------- header parsing

  function SplitLines(b: Bytes): seq<Bytes>
    decreases |b|
  {
    if Contains(b, CRLF) then
      var i := IndexOf(b, CRLF);
      [b[..i]] + SplitLines(b[i + 2..])
    else [b]
  }

  const FIELD_NAME: Bytes := A("content-length:")

  predicate IsLengthLine(line: Bytes) {
    |line| >= |FIELD_NAME| && forall i :: 0 <= i < |FIELD_NAME| ==> LowerCase(line[i]) == FIELD_NAME[i]
  }

  function StripLeft(s: Text): Text {
    if s != [] && IsWhite(s[0]) then StripLeft(s[1..]) else s
  }

  function StripRight(s: Text): Text {
    if s != [] && IsWhite(s[|s|-1]) then StripRight(s[..|s|-1]) else s
  }

  predicate DigitsOrUnderscores(s: Text) {
    && s != [] && IsDigit(s[0]) && IsDigit(s[|s|-1])
    && (forall i :: 0 <= i < |s| ==> IsDigit(s[i]) || s[i] == 0x5F)
    && (forall i :: 0 <= i < |s| - 1 ==> s[i] == 0x5F ==> s[i+1] != 0x5F)
  }

  function WithoutUnderscores(s: Text): (r: Text)
    requires forall i :: 0 <= i < |s| ==> IsDigit(s[i]) || s[i] == 0x5F
    ensures forall i :: 0 <= i < |r| ==> IsDigit(r[i])
  {
    if s == [] then [] else (if s[0] == 0x5F then [] else [s[0]]) + WithoutUnderscores(s[1..])
  }

  /** `int(...)` on stripped text: a sign, then ASCII digits with single underscores. */
  function ParseInt(s: Text): Option<int> {
    var negative := s != [] && s[0] == 0x2D;
    var digits := if s != [] && (s[0] == 0x2D || s[0] == 0x2B) then s[1..] else s;
    if !DigitsOrUnderscores(digits) then None
    else
      var n := JsonText.DigitsValue(WithoutUnderscores(digits));
      Some(if negative then -(n as int) else n)
  }

  /** What follows the colon; bytes that are no UTF-8 become characters `int` refuses. */
  function ParseLength(value: Bytes): Option<int> {
    match Decode(value)
    case None => None
    case Some(t) => ParseInt(StripRight(StripLeft(t)))
  }

  /** The length announced by the first Content-Length line. */
  function LineLength(lines: seq<Bytes>): Outcome<int> {
    if lines == [] then Fail(MissingLength)
    else if IsLengthLine(lines[0]) then
      match ParseLength(lines[0][|FIELD_NAME|..])
      case Some(n) => Ok(n)
      case None => Fail(BadLength)
    else LineLength(lines[1..])
  }

  function HeaderLength(header: Bytes): Outcome<int> {
    LineLength(SplitLines(header))
  }

  /** `_read_message`, up to the JSON parse of the body. */
  function ReadMessage(p: Pipe): Step<Text> {
    var head := ReadUntil(p, MARKER);
    match head.outcome
    case Fail(f) => Step(Fail(f), head.after)
    case Ok(header) =>
      match HeaderLength(header)
      case Fail(f) => Step(Fail(f), head.after)
      case Ok(n) => ReadExact(head.after, n)
  }

  // ------------------------------------------ the stream behind the reads

  function EndOf(chunks: seq<Bytes>): Failure {
    if chunks == [] then TimedOut else if chunks[0] == [] then Closed else EndOf(chunks[1..])
  }

  /** Everything the client will ever see. */
  function Stream(p: Pipe): Bytes {
    p.buffer + Flatten(UntilEnd(p.incoming))
  }

  /** One read does not change the stream, nor how it ends. */
  lemma FillKeepsStream(p: Pipe, cap: nat)
    requires p.incoming != [] && p.incoming[0] != [] && cap > 0
    ensures Stream(Fill(p, cap)) == Stream(p)
    ensures EndOf(Fill(p, cap).incoming) == EndOf(p.incoming)
    ensures Flatten(p.incoming) == Read(p.incoming, cap).0 + Flatten(Read(p.incoming, cap).1)
  {
    var (c, more) := Read(p.incoming, cap);
    var chunk, later := p.incoming[0], p.incoming[1..];
    Assoc(p.buffer, c, Flatten(UntilEnd(more)));
    if |chunk| > cap {
      assert more[1..] == later && UntilEnd(more) == [chunk[cap..]] + UntilEnd(later);
      assert chunk == c + chunk[cap..];
      Assoc(c, chunk[cap..], Flatten(UntilEnd(later)));
      Assoc(c, chunk[cap..], Flatten(later));
    }
    assert UntilEnd(p.incoming) == [chunk] + UntilEnd(later);
  }

  lemma OccursInPrefix(a: Bytes, c: Bytes, i: nat, m: Bytes)
    requires i + |m| <= |a|
    ensures OccursAt(a + c, i, m) <==> OccursAt(a, i, m)
  {}

  /** The first occurrence in a prefix is the first occurrence. */
  lemma IndexInPrefix(a: Bytes, c: Bytes, m: Bytes)
    requires Contains(a, m)
    ensures Contains(a + c, m) && IndexOf(a + c, m) == IndexOf(a, m)
  {
    var i := IndexOf(a, m);
    OccursInPrefix(a, c, i, m);
    assert OccursAt(a + c, i, m);
    var j := IndexOf(a + c, m);
    if j < i { OccursInPrefix(a, c, j, m); }
  }

  lemma TakeDrop(a: Bytes, c: Bytes, i: nat)
    requires i <= |a|
    ensures (a + c)[..i] == a[..i] && (a + c)[i..] == a[i..] + c
  {}

  lemma {:induction false} ReadUntilWhole(p: Pipe, m: Bytes)
    ensures var s, r := Stream(p), ReadUntil(p, m);
      if Contains(s, m)
      then r.outcome == Ok(s[..IndexOf(s, m)]) && Stream(r.after) == s[IndexOf(s, m) + |m|..]
           && EndOf(r.after.incoming) == EndOf(p.incoming)
      else r.outcome == Fail(EndOf(p.incoming))
    decreases Weight(p.incoming)
  {
    hide Contains, IndexOf;
    var tail := Flatten(UntilEnd(p.incoming));
    if Contains(p.buffer, m) {
      IndexInPrefix(p.buffer, tail, m);
      var i := IndexOf(p.buffer, m);
      TakeDrop(p.buffer, tail, i);
      TakeDrop(p.buffer, tail, i + |m|);
    } else if p.incoming == [] || p.incoming[0] == [] {
      assert p.buffer + tail == p.buffer;
    } else {
      FillKeepsStream(p, CAP);
      ReadUntilWhole(Fill(p, CAP), m);
    }
  }

  lemma {:induction false} ReadExactWhole(p: Pipe, n: nat)
    ensures var s, r := Stream(p), ReadExact(p, n);
      if n <= |s|
      then r.outcome == (match Decode(s[..n]) case Some(t) => Ok(t) case None => Fail(BadBody))
           && Stream(r.after) == s[n..]
           && EndOf(r.after.incoming) == EndOf(p.incoming)
      else r.outcome == Fail(EndOf(p.incoming))
    decreases Weight(p.incoming)
  {
    var tail := Flatten(UntilEnd(p.incoming));
    if |p.buffer| >= n {
      assert (p.buffer + tail)[..n] == p.buffer[..n];
      assert (p.buffer + tail)[n..] == p.buffer[n..] + tail;
    } else if p.incoming == [] || p.incoming[0] == [] {
      assert p.buffer + tail == p.buffer;
    } else {
      var cap := Missing(|p.buffer|, n);
      FillKeepsStream(p, cap);
      ReadExactWhole(Fill(p, cap), n);
    }
  }

  // ------------------------------------------------ independence of chunks

  /** What the client reports and what it leaves of the stream. */
  datatype Seen = Seen(outcome: Outcome<Text>, rest: Bytes)

  /** A failed wait leaves nothing to compare; every other outcome leaves a stream. */
  function Observe(p: Pipe): Seen {
    var r := ReadMessage(p);
    if Waited(r.outcome) then Seen(r.outcome, []) else Seen(r.outcome, Stream(r.after))
  }

  /** Reading one message from the whole stream. */
  function WholeMessage(s: Bytes, end: Failure): Seen {
    if !Contains(s, MARKER) then Seen(Fail(end), [])
    else
      var i := IndexOf(s, MARKER);
      var rest := s[i + 4..];
      match HeaderLength(s[..i])
      case Fail(f) => Seen(Fail(f), rest)
      case Ok(n) =>
        if n < 0 then Seen(Ok([]), rest)
        else if n > |rest| then Seen(Fail(end), [])
        else
          Seen(match Decode(rest[..n]) case Some(t) => Ok(t) case None => Fail(BadBody), rest[n..])
  }

  lemma LengthFailures(lines: seq<Bytes>)
    ensures LineLength(lines).Fail? ==>
      LineLength(lines).failure == MissingLength || LineLength(lines).failure == BadLength
  {}

  lemma {:induction false} EndOfKinds(chunks: seq<Bytes>)
    ensures EndOf(chunks) == TimedOut || EndOf(chunks) == Closed
  {
    if chunks != [] { EndOfKinds(chunks[1..]); }
  }

  // -------------------------------------------- how much can be buffered

  /** No error but a failed wait for bytes leaves the client in the middle of a message. */
  predicate Waited(o: Outcome<Text>) {
    o.Fail? && (o.failure.TimedOut? || o.failure.Closed?)
  }

  /** Behind a header there is never a full read: its last byte came with the last one. */
  lemma {:induction false} UntilOvershoot(p: Pipe, m: Bytes)
    requires m != []
    requires Contains(p.buffer, m) ==> |p.buffer| - IndexOf(p.buffer, m) - |m| < CAP
    ensures ReadUntil(p, m).outcome.Ok? ==> |ReadUntil(p, m).after.buffer| < CAP
    decreases Weight(p.incoming)
  {
    if !Contains(p.buffer, m) && p.incoming != [] && p.incoming[0] != [] {
      var q := Fill(p, CAP);
      var c := Read(p.incoming, CAP).0;
      if Contains(q.buffer, m) {
        var i := IndexOf(q.buffer, m);
        if i + |m| <= |p.buffer| {
          OccursInPrefix(p.buffer, c, i, m);
        }
      }
      UntilOvershoot(q, m);
    }
  }

  lemma {:induction false} ExactOvershoot(p: Pipe, n: int)
    requires |p.buffer| < CAP + if n > 0 then n else 0
    ensures ReadExact(p, n).outcome.Ok? || ReadExact(p, n).outcome == Fail(BadBody) ==>
      |ReadExact(p, n).after.buffer| < CAP
    decreases Weight(p.incoming)
  {
    if |p.buffer| < n && p.incoming != [] && p.incoming[0] != [] {
      ExactOvershoot(Fill(p, Missing(|p.buffer|, n)), n);
    }
  }

  /** Between messages less than one read is buffered, whatever arrived and however. */
  lemma IdleKept(p: Pipe)
    requires |p.buffer| < CAP
    ensures !Waited(ReadMessage(p).outcome) ==> |ReadMessage(p).after.buffer| < CAP
  {
    hide ReadUntil, ReadExact, HeaderLength;
    UntilOvershoot(p, MARKER);
    var head := ReadUntil(p, MARKER);
    FailsWaiting(p, MARKER);
    if head.outcome.Ok? && HeaderLength(head.outcome.value).Ok? {
      var n := HeaderLength(head.outcome.value).value;
      ExactOvershoot(head.after, n);
      ExactFails(head.after, n);
    }
  }

  lemma {:induction false} FailsWaiting(p: Pipe, m: Bytes)
    ensures ReadUntil(p, m).outcome.Fail? ==>
      ReadUntil(p, m).outcome.failure == TimedOut || ReadUntil(p, m).outcome.failure == Closed
    decreases Weight(p.incoming)
  {
    if !Contains(p.buffer, m) && p.incoming != [] && p.incoming[0] != [] { FailsWaiting(Fill(p, CAP), m); }
  }

  lemma {:induction false} ExactFails(p: Pipe, n: int)
    ensures ReadExact(p, n).outcome.Fail? ==> Waited(ReadExact(p, n).outcome) || ReadExact(p, n).outcome == Fail(BadBody)
    decreases Weight(p.incoming)
  {
    if |p.buffer| < n && p.incoming != [] && p.incoming[0] != [] { ExactFails(Fill(p, Missing(|p.buffer|, n)), n); }
  }

  // ------------------------------------------------- negative lengths

  /** Of what follows a header, no more than one byte short of a read can be buffered. */
  function Bufferable(rest: Bytes): nat {
    if |rest| < CAP then |rest| else CAP - 1
  }

  /** A negative length, and more bytes behind the header than that can be buffered. */
  predicate NegativeBeforeData(s: Bytes) {
    Contains(s, MARKER) &&
    var i := IndexOf(s, MARKER);
    HeaderLength(s[..i]).Ok? && HeaderLength(s[..i]).value < 0 && Bufferable(s[i + 4..]) + HeaderLength(s[..i]).value > 0
  }

  /** Reading a negative length takes what is buffered but its last bytes; none if too few. */
  lemma ReadExactNegative(p: Pipe, n: int)
    requires n < 0 && |p.buffer| + n <= 0
    ensures ReadExact(p, n) == Step(Ok([]), p)
  {}

  /** Apart from that case the reads may be cut anywhere: the whole stream decides. */
  lemma WholeDecides(p: Pipe)
    requires |p.buffer| < CAP && !NegativeBeforeData(Stream(p))
    ensures Observe(p) == WholeMessage(Stream(p), EndOf(p.incoming))
  {
    hide ReadUntil, ReadExact, LineLength, SplitLines, IndexOf, Contains;
    var s := Stream(p);
    ReadUntilWhole(p, MARKER);
    EndOfKinds(p.incoming);
    if Contains(s, MARKER) {
      var i := IndexOf(s, MARKER);
      var q := ReadUntil(p, MARKER).after;
      LengthFailures(SplitLines(s[..i]));
      if HeaderLength(s[..i]).Ok? {
        var n := HeaderLength(s[..i]).value;
        if n >= 0 {
          ReadExactWhole(q, n);
        } else {
          UntilOvershoot(p, MARKER);
          assert |q.buffer| <= |Stream(q)|;
          ReadExactNegative(q, n);
        }
      }
    }
  }

  /** No two ways of cutting the stream into reads can be told apart by a client between messages. */
  ghost predicate ChunkingFree(s: Bytes, end: Failure) {
    forall p, q | Cuts(p, s, end) && Cuts(q, s, end) :: Observe(p) == Observe(q)
  }

  ghost predicate Cuts(p: Pipe, s: Bytes, end: Failure) {
    |p.buffer| < CAP && Stream(p) == s && EndOf(p.incoming) == end
  }

  /** The end of file, or a pipe that stays silent. */
  function Ending(end: Failure): (chunks: seq<Bytes>)
    requires end == TimedOut || end == Closed
    ensures UntilEnd(chunks) == [] && EndOf(chunks) == end
  {
    if end == Closed then [[]] else []
  }

  /** A chunk that does not complete the marker is read away, in as many reads as it takes. */
  lemma {:induction false} Swallow(b: Bytes, c: Bytes, later: seq<Bytes>, m: Bytes)
    requires c != [] && !Contains(b + c, m)
    ensures ReadUntil(Pipe(b, [c] + later), m) == ReadUntil(Pipe(b + c, later), m)
    decreases |c|
  {
    hide Contains, IndexOf;
    var p := Pipe(b, [c] + later);
    assert p.incoming[1..] == later;
    if Contains(b, m) { IndexInPrefix(b, c, m); }
    assert ReadUntil(p, m) == ReadUntil(Fill(p, CAP), m);
    if |c| > CAP {
      Assoc(b, c[..CAP], c[CAP..]);
      assert c == c[..CAP] + c[CAP..];
      Swallow(b + c[..CAP], c[CAP..], later, m);
    }
  }

  /** Chunks offered before the end are all there is to read. */
  lemma {:induction false} Offered(chunks: seq<Bytes>, end: Failure)
    requires end == TimedOut || end == Closed
    requires forall i :: 0 <= i < |chunks| ==> chunks[i] != []
    ensures UntilEnd(chunks + Ending(end)) == chunks && EndOf(chunks + Ending(end)) == end
  {
    if chunks == [] {
      assert chunks + Ending(end) == Ending(end);
    } else {
      assert (chunks + Ending(end))[1..] == chunks[1..] + Ending(end);
      Offered(chunks[1..], end);
    }
  }

  lemma FlattenThree(a: Bytes, b: Bytes, c: Bytes)
    ensures Flatten([a, b, c]) == a + (b + c)
  {
    assert [a, b, c][1..] == [b, c] && [b, c][1..] == [c];
    assert Flatten([c]) == c;
  }

  lemma MarkerParts(s: Bytes)
    requires Contains(s, MARKER)
    ensures var i := IndexOf(s, MARKER);
      && s[i + 3] == 0x0A && s == s[..i + 3] + ([0x0A] + s[i + 4..])
      && !Contains(s[..i + 3], MARKER)
      && Contains(s[..i + 4], MARKER) && IndexOf(s[..i + 4], MARKER) == i
  {
    hide Contains, IndexOf;
    var i := IndexOf(s, MARKER);
    assert s[i + 3] == s[i..i + 4][3] == 0x0A;
    var a, b := s[..i + 3], s[i + 3..];
    assert a + b == s && b == [0x0A] + s[i + 4..];
    if Contains(a, MARKER) { IndexInPrefix(a, b, MARKER); }
    HeaderFound(s, i);
  }

  lemma HeaderFound(s: Bytes, i: nat)
    requires Contains(s, MARKER) && i == IndexOf(s, MARKER)
    ensures Contains(s[..i + 4], MARKER) && IndexOf(s[..i + 4], MARKER) == i
  {
    var head := s[..i + 4];
    assert head[i..i + 4] == s[i..i + 4];
    assert OccursAt(head, i, MARKER);
    assert s == head + s[i + 4..];
    IndexInPrefix(head, s[i + 4..], MARKER);
  }

  /** A fresh client for which the last byte of the marker comes alone, or with all that follows. */
  function Offer(s: Bytes, end: Failure, alone: bool): Pipe
    requires Contains(s, MARKER) && (end == TimedOut || end == Closed)
  {
    var i := IndexOf(s, MARKER);
    var a, rest := s[..i + 3], s[i + 4..];
    Pipe([], (if alone then [a, [0x0A], rest] else [a, [0x0A] + rest]) + Ending(end))
  }

  lemma OfferCuts(s: Bytes, end: Failure, alone: bool)
    requires Contains(s, MARKER) && (end == TimedOut || end == Closed)
    requires s[IndexOf(s, MARKER) + 4..] != []
    ensures Cuts(Offer(s, end, alone), s, end)
  {
    hide Contains, IndexOf;
    MarkerParts(s);
    var i := IndexOf(s, MARKER);
    var a, rest := s[..i + 3], s[i + 4..];
    if alone {
      Offered([a, [0x0A], rest], end);
      FlattenThree(a, [0x0A], rest);
    } else {
      Offered([a, [0x0A] + rest], end);
      FlattenThree(a, [0x0A] + rest, []);
      assert Flatten([a, [0x0A] + rest]) == a + ([0x0A] + rest) by {
        assert [a, [0x0A] + rest][1..] == [[0x0A] + rest];
        assert Flatten([[0x0A] + rest]) == [0x0A] + rest;
      }
    }
  }

  /** One read that completes the marker: the header is cut off, the rest stays buffered. */
  lemma OneRead(p: Pipe, head: Bytes, i: nat)
    requires p.incoming != [] && p.incoming[0] != [] && Fill(p, CAP).buffer == head
    requires !Contains(p.buffer, MARKER) && Contains(head, MARKER) && IndexOf(head, MARKER) == i
    ensures ReadUntil(p, MARKER) == Step(Ok(head[..i]), Pipe(head[i + 4..], Fill(p, CAP).incoming))
  {
    hide Contains, IndexOf, Fill;
    assert ReadUntil(p, MARKER) == ReadUntil(Fill(p, CAP), MARKER);
  }

  /** How much of the last chunk of an offer that read brings: the marker's end and what follows. */
  lemma OfferFills(s: Bytes, i: nat, later: seq<Bytes>, alone: bool)
    requires i + 4 < |s| && s[i + 3] == 0x0A
    requires later != [] && later[0] == if alone then [0x0A] else [0x0A] + s[i + 4..]
    ensures Fill(Pipe(s[..i + 3], later), CAP).buffer ==
      s[..i + 4 + if alone then 0 else Bufferable(s[i + 4..])]
  {}

  lemma HeadFound(s: Bytes, i: nat, k: nat)
    requires Contains(s, MARKER) && i == IndexOf(s, MARKER) && i + 4 + k <= |s|
    ensures Contains(s[..i + 4 + k], MARKER) && IndexOf(s[..i + 4 + k], MARKER) == i
  {
    hide Contains, IndexOf;
    HeaderFound(s, i);
    assert s[..i + 4 + k] == s[..i + 4] + s[i + 4..i + 4 + k];
    IndexInPrefix(s[..i + 4], s[i + 4..i + 4 + k], MARKER);
  }

  /** What is buffered behind the header in the two cases: nothing, or all that can be. */
  lemma OfferReads(s: Bytes, end: Failure, alone: bool)
    requires Contains(s, MARKER) && (end == TimedOut || end == Closed)
    requires s[IndexOf(s, MARKER) + 4..] != []
    ensures var i := IndexOf(s, MARKER);
      var r := ReadUntil(Offer(s, end, alone), MARKER);
      && r.outcome == Ok(s[..i])
      && |r.after.buffer| == if alone then 0 else Bufferable(s[i + 4..])
  {
    hide Contains, IndexOf, ReadUntil, Fill;
    MarkerParts(s);
    var i := IndexOf(s, MARKER);
    var a, rest := s[..i + 3], s[i + 4..];
    var k := if alone then 0 else Bufferable(rest);
    var later := (if alone then [[0x0A], rest] else [[0x0A] + rest]) + Ending(end);
    assert Offer(s, end, alone) == Pipe([], [a] + later);
    assert [] + a == a;
    Swallow([], a, later, MARKER);
    OfferFills(s, i, later, alone);
    HeadFound(s, i, k);
    var head := s[..i + 4 + k];
    OneRead(Pipe(a, later), head, i);
    assert head[..i] == s[..i];
  }

  /** The last byte of the header comes with what follows: the negative length takes a body. */
  lemma WithData(s: Bytes, end: Failure)
    requires (end == TimedOut || end == Closed) && NegativeBeforeData(s)
    ensures Cuts(Offer(s, end, false), s, end) && Observe(Offer(s, end, false)).outcome != Ok([])
  {
    hide ReadUntil, HeaderLength, Contains, IndexOf, Offer;
    OfferCuts(s, end, false);
    OfferReads(s, end, false);
  }

  /** The header comes alone: the negative length takes nothing. */
  lemma HeaderAlone(s: Bytes, end: Failure)
    requires (end == TimedOut || end == Closed) && NegativeBeforeData(s)
    ensures Cuts(Offer(s, end, true), s, end) && Observe(Offer(s, end, true)).outcome == Ok([])
  {
    hide ReadUntil, HeaderLength, Contains, IndexOf, Offer;
    OfferCuts(s, end, true);
    OfferReads(s, end, true);
    var i := IndexOf(s, MARKER);
    ReadExactNegative(ReadUntil(Offer(s, end, true), MARKER).after, HeaderLength(s[..i]).value);
  }

  /**
   * Between messages, the client's answer is independent of how the stream is cut into
   * reads, exactly unless the header announces a negative length and more bytes than that
   * can be buffered behind it.
   */
  lemma ChunkingFreeExactly(s: Bytes, end: Failure)
    requires end == TimedOut || end == Closed
    ensures ChunkingFree(s, end) <==> !NegativeBeforeData(s)
  {
    hide Observe, NegativeBeforeData;
    if !NegativeBeforeData(s) {
      forall p, q | Cuts(p, s, end) && Cuts(q, s, end) ensures Observe(p) == Observe(q) {
        WholeDecides(p);
        WholeDecides(q);
      }
    } else {
      WithData(s, end);
      HeaderAlone(s, end);
    }
  }

  // --------------------------------------------------------------- frames

  function Decimal(n: nat): (d: Bytes)
    ensures forall i :: 0 <= i < |d| ==> IsDigit(d[i])
    ensures d == JsonText.Natural(n) && d != [] && JsonText.DigitsValue(d) == n
  {
    JsonRoundTrip.NaturalDigits(n);
    JsonText.Natural(n)
  }

  function Header(n: nat): Bytes {
    A("Content-Length: ") + Decimal(n)
  }

  /** `_write_message`: the frame of a body. */
  function Frame(body: Bytes): Bytes {
    Header(|body|) + MARKER + body
  }

  function Frames(texts: seq<Text>): Bytes {
    if texts == [] then [] else Frame(Encode(texts[0])) + Frames(texts[1..])
  }

  // ---------------------------------------------------- frames come back

  lemma NoLineBreak(n: nat)
    ensures forall i :: 0 <= i < |Header(n)| ==> Header(n)[i] != 0x0D
  {}

  /** A text without carriage returns, then the marker: the marker is found right there. */
  lemma MarkerAfter(h: Bytes, rest: Bytes)
    requires forall i :: 0 <= i < |h| ==> h[i] != 0x0D
    ensures Contains(h + MARKER + rest, MARKER) && IndexOf(h + MARKER + rest, MARKER) == |h|
  {
    var s := h + MARKER + rest;
    assert s[|h|..|h| + 4] == MARKER;
    assert OccursAt(s, |h|, MARKER);
    forall j: nat | j < |h| ensures !OccursAt(s, j, MARKER) {
      if j + 4 <= |s| { assert s[j..j + 4][0] == s[j] == h[j]; }
    }
  }

  lemma NoSplit(h: Bytes)
    requires forall i :: 0 <= i < |h| ==> h[i] != 0x0D
    ensures SplitLines(h) == [h]
  {
    forall j: nat ensures !OccursAt(h, j, CRLF) {
      if j + 2 <= |h| { assert h[j..j + 2][0] == h[j]; }
    }
  }

  lemma {:induction false} PlainDigits(d: Text)
    requires forall i :: 0 <= i < |d| ==> IsDigit(d[i])
    ensures WithoutUnderscores(d) == d
  {
    if d != [] {
      PlainDigits(d[1..]);
      assert d == [d[0]] + d[1..];
    }
  }

  lemma StripBlank(d: Text)
    requires d != [] && forall i :: 0 <= i < |d| ==> IsDigit(d[i])
    ensures StripRight(StripLeft([0x20] + d)) == d
  {}

  lemma DecimalParses(n: nat)
    ensures ParseLength([0x20] + Decimal(n)) == Some(n)
  {
    hide Decimal, Decode, Encode, StripLeft, StripRight, DigitsOrUnderscores;
    var d := Decimal(n);
    var t: Text := [0x20] + d;
    EncodeAscii(t);
    DecodeEncode(t);
    StripBlank(d);
    DigitsOnly(d);
    PlainDigits(d);
  }

  lemma DigitsOnly(d: Text)
    requires d != [] && forall i :: 0 <= i < |d| ==> IsDigit(d[i])
    ensures DigitsOrUnderscores(d)
  {}

  lemma FieldNameMatches(n: nat)
    ensures IsLengthLine(Header(n)) && Header(n)[|FIELD_NAME|..] == [0x20] + Decimal(n)
  {}

  lemma HeaderRoundTrip(n: nat)
    ensures HeaderLength(Header(n)) == Ok(n)
  {
    hide SplitLines, IsLengthLine, Header, Decimal, ParseLength;
    var h := Header(n);
    NoLineBreak(n);
    NoSplit(h);
    FieldNameMatches(n);
    DecimalParses(n);
    assert [h][0] == h;
  }

  /** One frame at the head of the stream: its body is read and nothing more is taken. */
  lemma FrameRead(p: Pipe, t: Text, rest: Bytes)
    requires Encodable(t) && Stream(p) == Frame(Encode(t)) + rest
    ensures var r := ReadMessage(p); r.outcome == Ok(t) && Stream(r.after) == rest
  {
    hide ReadUntil, ReadExact, HeaderLength, Encode, Decode, Header, Contains, IndexOf;
    var body := Encode(t);
    var h := Header(|body|);
    var s := Stream(p);
    NoLineBreak(|body|);
    Assoc(h + MARKER, body, rest);
    MarkerAfter(h, body + rest);
    HeaderRoundTrip(|body|);
    ReadUntilWhole(p, MARKER);
    assert s == h + MARKER + (body + rest);
    TakeDrop(h, MARKER + (body + rest), |h|);
    Assoc(h, MARKER, body + rest);
    assert s[..|h|] == h && s[|h| + 4..] == body + rest;
    var q := ReadUntil(p, MARKER).after;
    ReadExactWhole(q, |body|);
    assert (body + rest)[..|body|] == body && (body + rest)[|body|..] == rest;
    DecodeEncode(t);
  }

  /** `k` calls of `_read_message`, one after the other. */
  function ReadMany(p: Pipe, k: nat): (seq<Outcome<Text>>, Pipe)
    decreases k
  {
    if k == 0 then ([], p)
    else
      var r := ReadMessage(p);
      var (more, after) := ReadMany(r.after, k - 1);
      ([r.outcome] + more, after)
  }

  /** Over any run whose waits succeed, less than one read stays buffered. */
  lemma {:induction false} IdleRun(p: Pipe, k: nat)
    requires |p.buffer| < CAP
    ensures var (outcomes, after) := ReadMany(p, k);
      (forall i :: 0 <= i < |outcomes| ==> !Waited(outcomes[i])) ==> |after.buffer| < CAP
    decreases k
  {
    hide ReadMessage, Waited;
    if k > 0 {
      var r := ReadMessage(p);
      var (outcomes, after) := ReadMany(p, k);
      assert outcomes[0] == r.outcome;
      if forall i :: 0 <= i < |outcomes| ==> !Waited(outcomes[i]) {
        IdleKept(p);
        IdleRun(r.after, k - 1);
        var (more, last) := ReadMany(r.after, k - 1);
        assert forall i :: 0 <= i < |more| ==> more[i] == outcomes[i + 1];
      }
    }
  }

  /**
   * Any bodies, framed one after the other and cut into reads anywhere, come back complete
   * and in order, even if a body holds the header marker or a read overshoots a frame.
   */
  lemma {:induction false} FramesInOrder(p: Pipe, texts: seq<Text>, rest: Bytes)
    requires forall i :: 0 <= i < |texts| ==> Encodable(texts[i])
    requires Stream(p) == Frames(texts) + rest
    ensures var (outcomes, after) := ReadMany(p, |texts|);
      && |outcomes| == |texts|
      && (forall i :: 0 <= i < |texts| ==> outcomes[i] == Ok(texts[i]))
      && Stream(after) == rest
    decreases |texts|
  {
    hide ReadMessage, Frame;
    if texts == [] {
      assert Frames(texts) + rest == rest;
    } else {
      var tail := Frames(texts[1..]) + rest;
      Assoc(Frame(Encode(texts[0])), Frames(texts[1..]), rest);
      FrameRead(p, texts[0], tail);
      FramesInOrder(ReadMessage(p).after, texts[1..], rest);
    }
  }
}
