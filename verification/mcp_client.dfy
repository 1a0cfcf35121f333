/**
 * `McpStdioClient` as the object it is: a buffer extended and cut in place by loops,
 * each proved to do what the functions of `McpFrames` say and to lose no byte.
 */
module McpClient {
  import opened Basics
  import opened Utf8
  import opened McpFrames

  class McpStdioClient {
    var readBuffer: Bytes
    var incoming: seq<Bytes>
    var sent: Bytes
    ghost var received: Bytes
    ghost var consumed: Bytes

    /** Every byte received is consumed or buffered, in order. */
    ghost predicate Valid()
      reads this
    {
      received == consumed + readBuffer
    }

    function State(): Pipe
      reads this
    {
      Pipe(readBuffer, incoming)
    }

    constructor (incoming: seq<Bytes>)
      ensures Valid() && State() == Pipe([], incoming) && sent == [] && consumed == []
    {
      this.incoming := incoming;
      readBuffer, sent, received, consumed := [], [], [], [];
    }

    /** `_write_message`, for a payload already serialized. */
    method WriteMessage(raw: Bytes)
      modifies this`sent
      ensures sent == old(sent) + Frame(raw)
    {
      ghost var start := sent;
      sent := sent + (A("Content-Length: ") + Decimal(|raw|) + MARKER);
      sent := sent + raw;
      Assoc(start, Header(|raw|) + MARKER, raw);
    }

    /** One `os.read` of at most `cap` bytes into the buffer. */
    method Fill(cap: nat) returns (failure: Option<Failure>)
      requires Valid() && cap > 0
      modifies this`readBuffer, this`incoming, this`received
      ensures Valid() && consumed == old(consumed)
      ensures failure ==
        if old(incoming) == [] then Some(TimedOut) else if old(incoming)[0] == [] then Some(Closed) else None
      ensures if failure.Some? then State() == old(State()) && received == old(received)
              else State() == McpFrames.Fill(old(State()), cap) && |readBuffer| <= |old(readBuffer)| + cap
      ensures received + Flatten(incoming) == old(received) + Flatten(old(incoming))
    {
      if incoming == [] {
        return Some(TimedOut);
      }
      if incoming[0] == [] {
        return Some(Closed);
      }
      FillKeepsStream(State(), cap);
      var (chunk, more) := Read(incoming, cap);
      Assoc(consumed, readBuffer, chunk);
      Assoc(received, chunk, Flatten(more));
      readBuffer := readBuffer + chunk;
      incoming := more;
      received := received + chunk;
      return None;
    }

    /** Removes `k` bytes from the front of the buffer. */
    method Take(k: nat) returns (bytes: Bytes)
      requires Valid() && k <= |readBuffer|
      modifies this`readBuffer, this`consumed
      ensures Valid() && bytes == old(readBuffer)[..k] && readBuffer == old(readBuffer)[k..]
      ensures consumed == old(consumed) + bytes
    {
      bytes := readBuffer[..k];
      readBuffer := readBuffer[k..];
      Assoc(consumed, bytes, readBuffer);
      assert bytes + readBuffer == old(readBuffer);
      consumed := consumed + bytes;
    }

    method ReadUntil(marker: Bytes) returns (outcome: Outcome<Bytes>)
      requires Valid()
      modifies this
      ensures Valid() && sent == old(sent)
      ensures Step(outcome, State()) == McpFrames.ReadUntil(old(State()), marker)
      ensures outcome.Ok? ==> consumed == old(consumed) + outcome.value + marker
      ensures outcome.Fail? ==> consumed == old(consumed)
      ensures received + Flatten(incoming) == old(received) + Flatten(old(incoming))
    {
      hide Contains, IndexOf;
      while !Contains(readBuffer, marker)
        invariant Valid() && sent == old(sent) && consumed == old(consumed)
        invariant McpFrames.ReadUntil(State(), marker) == McpFrames.ReadUntil(old(State()), marker)
        invariant received + Flatten(incoming) == old(received) + Flatten(old(incoming))
        decreases Weight(incoming)
      {
        var failure := Fill(CAP);
        if failure.Some? {
          return Fail(failure.value);
        }
      }
      var header := TakeHeader(marker);
      return Ok(header);
    }

    /** The cut at the first marker: the marker goes, the header is returned. */
    method TakeHeader(marker: Bytes) returns (header: Bytes)
      requires Valid() && Contains(readBuffer, marker)
      modifies this`readBuffer, this`consumed
      ensures Valid() && consumed == old(consumed) + header + marker
      ensures header == old(readBuffer)[..IndexOf(old(readBuffer), marker)]
      ensures readBuffer == old(readBuffer)[IndexOf(old(readBuffer), marker) + |marker|..]
    {
      var index := IndexOf(readBuffer, marker);
      header := readBuffer[..index];
      assert readBuffer[..index + |marker|] == header + marker;
      Assoc(consumed, header, marker);
      var _ := Take(index + |marker|);
    }

    method ReadExact(length: int) returns (outcome: Outcome<Text>)
      requires Valid()
      modifies this
      ensures Valid() && sent == old(sent)
      ensures Step(outcome, State()) == McpFrames.ReadExact(old(State()), length)
      ensures outcome.Ok? ==> consumed == old(consumed) + Encode(outcome.value)
      ensures received + Flatten(incoming) == old(received) + Flatten(old(incoming))
    {
      while |readBuffer| < length
        invariant Valid() && sent == old(sent) && consumed == old(consumed)
        invariant McpFrames.ReadExact(State(), length) == McpFrames.ReadExact(old(State()), length)
        invariant received + Flatten(incoming) == old(received) + Flatten(old(incoming))
        decreases Weight(incoming)
      {
        var failure := Fill(Missing(|readBuffer|, length));
        if failure.Some? {
          return Fail(failure.value);
        }
      }
      var body := Take(Cut(readBuffer, length));
      EncodeDecode(body);
      match Decode(body) {
        case Some(text) => return Ok(text);
        case None => return Fail(BadBody);
      }
    }

    /** `_read_message`: a header up to the blank line, then as many bytes as it announces. */
    method ReadMessage() returns (outcome: Outcome<Text>)
      requires Valid()
      modifies this
      ensures Valid() && sent == old(sent)
      ensures Step(outcome, State()) == McpFrames.ReadMessage(old(State()))
      ensures received + Flatten(incoming) == old(received) + Flatten(old(incoming))
    {
      var header := ReadUntil(MARKER);
      if header.Fail? {
        return Fail(header.failure);
      }
      var length := HeaderLength(header.value);
      if length.Fail? {
        return Fail(length.failure);
      }
      outcome := ReadExact(length.value);
    }
  }
}
