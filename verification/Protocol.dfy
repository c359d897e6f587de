/** protocol.cpp: length-prefixed frames over a buffer that is consumed from the front. */
module Protocol {
  import opened Bytes
  import opened Serialization

  /** MAX_MESSAGE_SIZE: any bound that a 32-bit length can express. */
  type Limit = n: nat | n < 0x1_0000_0000

  datatype Extracted = NoFrame(rest: bytes) | GotFrame(payload: bytes, rest: bytes)

  // ---------------------------------------------------------------------------
  // Specification
  // ---------------------------------------------------------------------------

  /** The empty result stands for a payload that is too large. */
  function CreateFrame(payload: bytes, limit: Limit): bytes
  {
    if |payload| > limit then [] else Sized(payload)
  }

  /** One frame from the front; an oversized length drops everything received so far. */
  function Extract(buffer: bytes, limit: Limit): (r: Extracted)
    ensures r.GotFrame? ==> |r.rest| + 4 <= |buffer|
    ensures |r.rest| <= |buffer|
  {
    if |buffer| < 4 then NoFrame(buffer)
    else
      var size := U32(buffer);
      if size > limit then NoFrame([])
      else if |buffer| < 4 + size then NoFrame(buffer)
      else GotFrame(buffer[4..][..size], buffer[4..][size..])
  }

  datatype Drained = Drained(payloads: seq<bytes>, rest: bytes)

  /** Extracting until nothing more comes out; each frame takes at least its four length bytes with it. */
  function Drain(buffer: bytes, limit: Limit): (d: Drained)
    ensures |d.rest| <= |buffer|
    decreases |buffer|
  {
    match Extract(buffer, limit)
    case NoFrame(rest) => Drained([], rest)
    case GotFrame(payload, rest) =>
      var more := Drain(rest, limit);
      Drained([payload] + more.payloads, more.rest)
  }

  /** Draining after each of a sequence of chunks. */
  function Feed(buffer: bytes, chunks: seq<bytes>, limit: Limit): Drained
    decreases |chunks|
  {
    if chunks == [] then Drained([], buffer)
    else
      var first := Drain(buffer + chunks[0], limit);
      var more := Feed(first.rest, chunks[1..], limit);
      Drained(first.payloads + more.payloads, more.rest)
  }

  function Concat(chunks: seq<bytes>): bytes
  {
    if chunks == [] then [] else chunks[0] + Concat(chunks[1..])
  }

  function Frames(payloads: seq<bytes>): bytes
  {
    if payloads == [] then [] else Sized(payloads[0]) + Frames(payloads[1..])
  }

  // ---------------------------------------------------------------------------
  // The code
  // ---------------------------------------------------------------------------

  method MakeFrame(payload: bytes, limit: Limit) returns (frame: bytes)
    ensures frame == CreateFrame(payload, limit)
  {
    hide Le32;
    if |payload| > limit {
      return [];
    }
    frame := AppendUint32([], |payload|);
    frame := frame + payload;
    assert frame == Sized(payload);
  }

  method TryExtractFrame(inputBuffer: bytes, limit: Limit) returns (ok: bool, payload: bytes, buffer: bytes)
    ensures match Extract(inputBuffer, limit)
            case NoFrame(rest) => !ok && payload == [] && buffer == rest
            case GotFrame(p, rest) => ok && payload == p && buffer == rest
  {
    hide U32;
    payload, buffer := [], inputBuffer;
    if |inputBuffer| < 4 {
      return false, payload, buffer;
    }
    assert inputBuffer[0..] == inputBuffer;
    var read, size, offset := ReadUint32(inputBuffer, 0);
    if size > limit {
      return false, payload, [];
    }
    var frameSize := 4 + size;
    if |inputBuffer| < frameSize {
      return false, payload, buffer;
    }
    payload := inputBuffer[4..frameSize];
    assert payload == inputBuffer[4..][..size];
    buffer := inputBuffer[frameSize..];
    assert buffer == inputBuffer[4..][size..];
    ok := true;
  }

  // ---------------------------------------------------------------------------
  // One frame
  // ---------------------------------------------------------------------------

  /** A created frame is extracted as the payload it was made from, whatever follows it. */
  lemma ExtractOfFrame(payload: bytes, rest: bytes, limit: Limit)
    requires |payload| <= limit
    ensures Extract(CreateFrame(payload, limit) + rest, limit) == GotFrame(payload, rest)
  {
    hide Le32, U32;
    assert Sized(payload) + rest == Le32(|payload|) + (payload + rest);
    U32OfLe32(|payload|, payload + rest);
    assert (payload + rest)[..|payload|] == payload && (payload + rest)[|payload|..] == rest;
  }

  /** A frame cut short waits in the buffer. */
  lemma ExtractTorn(payload: bytes, j: nat, limit: Limit)
    requires |payload| <= limit && j < 4 + |payload|
    ensures Extract(Sized(payload)[..j], limit) == NoFrame(Sized(payload)[..j])
  {
    hide Le32, U32;
    if j >= 4 {
      assert Sized(payload)[..j] == Le32(|payload|) + payload[..j - 4];
      U32OfLe32(|payload|, payload[..j - 4]);
    }
  }

  // ---------------------------------------------------------------------------
  // Streams
  // ---------------------------------------------------------------------------

  /** An oversized length is met while at least one byte stands behind it. */
  predicate Overrun(s: bytes, limit: Limit)
    decreases |s|
  {
    |s| >= 4 &&
    var size := U32(s);
    if size > limit then |s| > 4
    else |s| >= 4 + size && Overrun(s[4..][size..], limit)
  }

  lemma ExtractExtended(x: bytes, y: bytes, limit: Limit)
    requires |x| >= 4
    ensures U32(x + y) == U32(x)
    ensures Extract(x, limit).GotFrame? ==> Extract(x + y, limit) == GotFrame(Extract(x, limit).payload, Extract(x, limit).rest + y)
  {
    assert (x + y)[..4] == x[..4];
    hide U32;
    var size := U32(x);
    if size <= limit && |x| >= 4 + size {
      assert (x + y)[4..][..size] == x[4..][..size];
      assert (x + y)[4..][size..] == x[4..][size..] + y;
    }
  }

  /** What has been drained does not matter to what comes: the rest and the next bytes decide it. */
  lemma {:induction false} DrainSplit(x: bytes, y: bytes, limit: Limit)
    requires !Overrun(x + y, limit)
    ensures var d := Drain(x, limit);
            var e := Drain(d.rest + y, limit);
            Drain(x + y, limit) == Drained(d.payloads + e.payloads, e.rest) && !Overrun(d.rest + y, limit)
    decreases |x|
  {
    hide U32, Drain;
    DrainStep(x, limit);
    match Extract(x, limit)
    case NoFrame(rest) =>
      assert rest == x || rest == [];
      if rest != x {
        ExtractExtended(x, y, limit);
        assert y == [] && x + y == x && rest + y == [];
        DrainNothing(limit);
      }
      assert [] + Drain(rest + y, limit).payloads == Drain(rest + y, limit).payloads;
    case GotFrame(payload, rest) =>
      ExtractExtended(x, y, limit);
      assert Extract(x + y, limit).rest == (x + y)[4..][U32(x)..];
      DrainStep(x + y, limit);
      DrainSplit(rest, y, limit);
      var d := Drain(rest, limit);
      var e := Drain(d.rest + y, limit);
      assert [payload] + (d.payloads + e.payloads) == [payload] + d.payloads + e.payloads;
  }

  lemma DrainStep(buffer: bytes, limit: Limit)
    ensures Drain(buffer, limit) ==
            match Extract(buffer, limit)
            case NoFrame(rest) => Drained([], rest)
            case GotFrame(payload, rest) => Drained([payload] + Drain(rest, limit).payloads, Drain(rest, limit).rest)
  {
    hide Extract;
  }

  lemma {:induction false} FeedIsDrain(buffer: bytes, chunks: seq<bytes>, limit: Limit)
    requires !Overrun(buffer + Concat(chunks), limit)
    requires Drain(buffer, limit) == Drained([], buffer)
    ensures Feed(buffer, chunks, limit) == Drain(buffer + Concat(chunks), limit)
    decreases |chunks|
  {
    if chunks == [] {
      assert buffer + Concat(chunks) == buffer;
    } else {
      hide Overrun, Extract;
      var x, y := buffer + chunks[0], Concat(chunks[1..]);
      assert buffer + Concat(chunks) == x + y;
      DrainSplit(x, y, limit);
      DrainRestIsDry(x, limit);
      FeedIsDrain(Drain(x, limit).rest, chunks[1..], limit);
    }
  }

  lemma {:induction false} DrainRestIsDry(x: bytes, limit: Limit)
    ensures Drain(Drain(x, limit).rest, limit) == Drained([], Drain(x, limit).rest)
    decreases |x|
  {
    hide U32;
    match Extract(x, limit)
    case NoFrame(rest) =>
    case GotFrame(payload, rest) => DrainRestIsDry(rest, limit);
  }

  /** Past an oversized length, one more byte makes the difference between dropped and kept. */
  lemma {:induction false} OverrunDrops(s: bytes, limit: Limit)
    requires Overrun(s, limit)
    ensures Drain(s, limit).rest == [] && Drain(s[..|s| - 1], limit).rest == []
    decreases |s|
  {
    var x, y := s[..|s| - 1], s[|s| - 1..];
    assert s == x + y;
    hide U32;
    var size := U32(s);
    if size > limit {
      ExtractExtended(x, y, limit);
    } else {
      var tail := s[4..][size..];
      OverrunDrops(tail, limit);
      assert |tail| > 0;
      ExtractExtended(x, y, limit);
      assert x[4..][size..] == tail[..|tail| - 1];
    }
  }

  lemma DrainOneByte(b: byte, limit: Limit)
    ensures Drain([b], limit) == Drained([], [b])
  {
  }

  /**
   * The payloads extracted and the bytes left over are the same for every way the stream is cut into reads
   * if and only if no oversized length comes before the stream's last byte.
   */
  lemma StreamIndependence(s: bytes, limit: Limit)
    ensures (forall chunks: seq<bytes> :: Concat(chunks) == s ==> Feed([], chunks, limit) == Drain(s, limit))
            <==> !Overrun(s, limit)
  {
    hide Overrun, Drain, Feed;
    if Overrun(s, limit) {
      OverrunIsLong(s, limit);
      var chunks := [s[..|s| - 1], s[|s| - 1..]];
      TwoReads(s, chunks, limit);
      OverrunDrops(s, limit);
      DrainOneByte(s[|s| - 1], limit);
      assert [] + s[|s| - 1..] == [s[|s| - 1]];
      assert Feed([], chunks, limit) != Drain(s, limit);
    } else {
      forall chunks: seq<bytes> | Concat(chunks) == s
        ensures Feed([], chunks, limit) == Drain(s, limit)
      {
        assert [] + Concat(chunks) == s;
        DrainNothing(limit);
        FeedIsDrain([], chunks, limit);
      }
    }
  }

  lemma OverrunIsLong(s: bytes, limit: Limit)
    requires Overrun(s, limit)
    ensures |s| > 0
  {
  }

  lemma DrainNothing(limit: Limit)
    ensures Drain([], limit) == Drained([], [])
  {
  }

  lemma TwoReads(s: bytes, chunks: seq<bytes>, limit: Limit)
    requires |s| > 0 && chunks == [s[..|s| - 1], s[|s| - 1..]]
    ensures Concat(chunks) == s
    ensures Feed([], chunks, limit).rest == Drain(Drain(s[..|s| - 1], limit).rest + s[|s| - 1..], limit).rest
  {
    hide Drain;
    assert chunks[1..] == [s[|s| - 1..]] && chunks[1..][1..] == [];
    assert Concat(chunks[1..]) == s[|s| - 1..];
    assert [] + s[..|s| - 1] == s[..|s| - 1];
    var mid := Drain(s[..|s| - 1], limit).rest;
    assert Feed(mid, chunks[1..], limit).rest == Drain(mid + s[|s| - 1..], limit).rest;
  }

  // ---------------------------------------------------------------------------
  // Streams of frames
  // ---------------------------------------------------------------------------

  predicate AllWithin(payloads: seq<bytes>, limit: Limit)
  {
    forall i :: 0 <= i < |payloads| ==> |payloads[i]| <= limit
  }

  lemma {:induction false} DrainFrames(payloads: seq<bytes>, tail: bytes, limit: Limit)
    requires AllWithin(payloads, limit)
    requires Extract(tail, limit) == NoFrame(tail)
    ensures Drain(Frames(payloads) + tail, limit) == Drained(payloads, tail)
    ensures !Overrun(Frames(payloads) + tail, limit)
    decreases |payloads|
  {
    hide U32, Le32;
    if payloads == [] {
      assert Frames(payloads) + tail == tail;
    } else {
      var p, more := payloads[0], Frames(payloads[1..]) + tail;
      assert Frames(payloads) + tail == Sized(p) + more;
      ExtractOfFrame(p, more, limit);
      DrainFrames(payloads[1..], tail, limit);
      assert payloads == [p] + payloads[1..];
    }
  }

  /**
   * Frames cut into reads anywhere, the last frame possibly unfinished: exactly the finished payloads come
   * out, in order, and the unfinished bytes stay in the buffer.
   */
  lemma FramesSurviveAnyCut(payloads: seq<bytes>, last: bytes, j: nat, chunks: seq<bytes>, limit: Limit)
    requires AllWithin(payloads, limit) && |last| <= limit && j < 4 + |last|
    requires Concat(chunks) == Frames(payloads) + Sized(last)[..j]
    ensures Feed([], chunks, limit) == Drained(payloads, Sized(last)[..j])
  {
    hide Drain, Feed, Extract, Overrun, Frames, Concat;
    ExtractTorn(last, j, limit);
    DrainFrames(payloads, Sized(last)[..j], limit);
    StreamIndependence(Concat(chunks), limit);
  }
}
