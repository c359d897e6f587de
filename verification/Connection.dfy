/** connection.cpp: one client's buffers, with recv and send answering as the network pleases. */
module Connection {
  import opened Bytes
  import opened Serialization
  import opened Protocol

  datatype Phase = Reading | Writing | Closed

  /** What one recv answers; a script that runs out counts as nothing more to read for now. */
  datatype Received = Data(chunk: bytes) | PeerClosed | ReadBlocked | ReadInterrupted | ReadBroken

  /** What one send answers: how many of the offered bytes it took, never more than there are. */
  datatype Sent = Taken(count: nat) | WriteBlocked | WriteInterrupted | WriteBroken

  // ---------------------------------------------------------------------------
  // Requests and responses
  // ---------------------------------------------------------------------------

  /** The handler's responses to a sequence of requests, the state passed along. */
  function Answers<S>(handler: (S, bytes) -> (S, bytes), s: S, requests: seq<bytes>): (r: seq<bytes>)
    ensures |r| == |requests|
  {
    if requests == [] then [] else [handler(s, requests[0]).1] + Answers(handler, handler(s, requests[0]).0, requests[1..])
  }

  function StateAfter<S>(handler: (S, bytes) -> (S, bytes), s: S, requests: seq<bytes>): S
  {
    if requests == [] then s else StateAfter(handler, handler(s, requests[0]).0, requests[1..])
  }

  lemma {:induction false} AnswersConcat<S>(handler: (S, bytes) -> (S, bytes), s: S, x: seq<bytes>, y: seq<bytes>)
    ensures Answers(handler, s, x + y) == Answers(handler, s, x) + Answers(handler, StateAfter(handler, s, x), y)
    ensures StateAfter(handler, s, x + y) == StateAfter(handler, StateAfter(handler, s, x), y)
  {
    if x == [] {
      assert x + y == y;
    } else {
      assert (x + y)[1..] == x[1..] + y;
      AnswersConcat(handler, handler(s, x[0]).0, x[1..], y);
    }
  }

  /** The k-th response is the handler's to the k-th request, in the state that the requests before it have left. */
  lemma {:induction false} AnswerAt<S>(handler: (S, bytes) -> (S, bytes), s: S, requests: seq<bytes>, k: nat)
    requires k < |requests|
    ensures Answers(handler, s, requests)[k] == handler(StateAfter(handler, s, requests[..k]), requests[k]).1
    ensures StateAfter(handler, s, requests[..k + 1]) == handler(StateAfter(handler, s, requests[..k]), requests[k]).0
    ensures StateAfter(handler, s, []) == s
  {
    assert requests[..k + 1][1..] == requests[1..][..k];
    if k > 0 {
      AnswerAt(handler, handler(s, requests[0]).0, requests[1..], k - 1);
      assert requests[..k][1..] == requests[1..][..k - 1];
    }
  }

  lemma {:induction false} FramesConcat(x: seq<bytes>, y: seq<bytes>)
    ensures Frames(x + y) == Frames(x) + Frames(y)
  {
    hide Sized;
    if x == [] {
      assert x + y == y;
    } else {
      assert (x + y)[1..] == x[1..] + y;
      FramesConcat(x[1..], y);
    }
  }

  lemma FramesOfOne(r: bytes)
    ensures Frames([r]) == Sized(r)
  {
    assert [r][1..] == [];
  }

  /** What processing a buffer comes to: the requests answered, until the buffer is dry or a response is too large. */
  datatype Served<S> = Served(answered: seq<bytes>, responses: seq<bytes>, rest: bytes, state: S, overflow: bool)

  function Serve<S>(handler: (S, bytes) -> (S, bytes), limit: Limit, input: bytes, s: S): Served<S>
    decreases |input|
  {
    match Extract(input, limit)
    case NoFrame(rest) => Served([], [], rest, s, false)
    case GotFrame(request, rest) =>
      var (s', response) := handler(s, request);
      if |response| > limit then Served([], [], rest, s', true)
      else
        var more := Serve(handler, limit, rest, s');
        Served([request] + more.answered, [response] + more.responses, more.rest, more.state, more.overflow)
  }

  /** Requests answered earlier, put in front of what serving comes to. */
  function Prepend<S>(answered: seq<bytes>, responses: seq<bytes>, v: Served<S>): Served<S>
  {
    v.(answered := answered + v.answered, responses := responses + v.responses)
  }

  lemma ServeStep<S>(handler: (S, bytes) -> (S, bytes), limit: Limit, input: bytes, s: S, answered: seq<bytes>, responses: seq<bytes>)
    ensures Prepend(answered, responses, Serve(handler, limit, input, s)) ==
            match Extract(input, limit)
            case NoFrame(rest) => Served(answered, responses, rest, s, false)
            case GotFrame(request, rest) =>
              var (s', response) := handler(s, request);
              if |response| > limit then Served(answered, responses, rest, s', true)
              else Prepend(answered + [request], responses + [response], Serve(handler, limit, rest, s'))
    ensures Prepend([], [], Serve(handler, limit, input, s)) == Serve(handler, limit, input, s)
  {
    hide Extract;
    assert forall x: seq<bytes> :: x + [] == x && [] + x == x;
    match Extract(input, limit)
    case NoFrame(rest) =>
    case GotFrame(request, rest) =>
      var (s', response) := handler(s, request);
      var more := Serve(handler, limit, rest, s');
      assert answered + ([request] + more.answered) == answered + [request] + more.answered;
      assert responses + ([response] + more.responses) == responses + [response] + more.responses;
  }

  lemma FramesOfNone()
    ensures Frames([]) == []
  {
  }

  /** Serving goes on exactly until a response is larger than the limit. */
  lemma {:induction false} ServeStopsAtOverflow<S>(handler: (S, bytes) -> (S, bytes), limit: Limit, input: bytes, s: S)
    ensures var v, payloads := Serve(handler, limit, input, s), Drain(input, limit).payloads;
            var all := Answers(handler, s, payloads);
            && v.answered <= payloads && v.responses <= all
            && (forall k :: 0 <= k < |v.responses| ==> |v.responses[k]| <= limit)
            && (v.overflow <==> |v.responses| < |all|)
            && (v.overflow ==> |all[|v.responses|]| > limit)
    decreases |input|
  {
    hide Extract;
    match Extract(input, limit)
    case NoFrame(rest) =>
    case GotFrame(request, rest) =>
      var (s', response) := handler(s, request);
      var payloads := Drain(input, limit).payloads;
      assert payloads[1..] == Drain(rest, limit).payloads;
      if |response| <= limit {
        ServeStopsAtOverflow(handler, limit, rest, s');
      }
  }

  /** Unless a response overflows, serving answers exactly the drained payloads, each by its own response. */
  lemma {:induction false} ServeIsDrain<S>(handler: (S, bytes) -> (S, bytes), limit: Limit, input: bytes, s: S)
    ensures var v := Serve(handler, limit, input, s);
            && v.responses == Answers(handler, s, v.answered)
            && (!v.overflow ==> Drain(input, limit) == Drained(v.answered, v.rest)
                                && v.state == StateAfter(handler, s, v.answered))
            && (v.overflow ==> v.answered < Drain(input, limit).payloads)
    decreases |input|
  {
    hide Extract;
    match Extract(input, limit)
    case NoFrame(rest) =>
    case GotFrame(request, rest) =>
      var (s', response) := handler(s, request);
      if |response| <= limit {
        ServeIsDrain(handler, limit, rest, s');
        var more := Serve(handler, limit, rest, s');
        assert ([request] + more.answered)[1..] == more.answered;
      }
  }

  lemma {:induction false} FeedSnoc(buffer: bytes, chunks: seq<bytes>, chunk: bytes, limit: Limit)
    ensures var f := Feed(buffer, chunks, limit);
            var d := Drain(f.rest + chunk, limit);
            Feed(buffer, chunks + [chunk], limit) == Drained(f.payloads + d.payloads, d.rest)
    decreases |chunks|
  {
    hide Drain;
    if chunks == [] {
      assert (chunks + [chunk])[1..] == [];
    } else {
      var first := Drain(buffer + chunks[0], limit);
      assert (chunks + [chunk])[1..] == chunks[1..] + [chunk];
      FeedSnoc(first.rest, chunks[1..], chunk, limit);
      var f := Feed(first.rest, chunks[1..], limit);
      var d := Drain(f.rest + chunk, limit);
      assert first.payloads + (f.payloads + d.payloads) == first.payloads + f.payloads + d.payloads;
    }
  }

  /** Payloads drained earlier, put in front of what a drain comes to. */
  function FedAnd(payloads: seq<bytes>, d: Drained): Drained
  {
    Drained(payloads + d.payloads, d.rest)
  }

  /** The bytes a script of recv answers delivers before the first that ends the loop, and whether that closes. */
  function Delivered(script: seq<Received>): (bytes, bool)
  {
    if script == [] then ([], false)
    else
      match script[0]
      case Data(chunk) => (chunk + Delivered(script[1..]).0, Delivered(script[1..]).1)
      case ReadInterrupted => Delivered(script[1..])
      case ReadBlocked => ([], false)
      case PeerClosed => ([], true)
      case ReadBroken => ([], true)
  }

  /** How far a script of send answers moves an offset, and whether the loop ended by closing. */
  function Advanced(script: seq<Sent>, offset: nat, size: nat): (r: (nat, bool))
    requires offset <= size
    ensures offset <= r.0 <= size
    decreases |script|
  {
    if script == [] || offset == size then (offset, false)
    else
      match script[0]
      case Taken(count) =>
        if count == 0 then (offset, true)
        else Advanced(script[1..], if count < size - offset then offset + count else size, size)
      case WriteInterrupted => Advanced(script[1..], offset, size)
      case WriteBlocked => (offset, false)
      case WriteBroken => (offset, true)
  }

  // ---------------------------------------------------------------------------
  // What the scripts come to, in their own terms
  // ---------------------------------------------------------------------------

  /** Nothing but interrupts and positive counts. */
  predicate Accepting(script: seq<Sent>)
  {
    forall i :: 0 <= i < |script| ==> script[i].WriteInterrupted? || (script[i].Taken? && script[i].count > 0)
  }

  /** The sum of the counts. */
  function TotalTaken(script: seq<Sent>): (n: nat)
  {
    if script == [] then 0
    else TotalTaken(script[1..]) + if script[0].Taken? then script[0].count else 0
  }

  /** Accepted bytes are passed by as many as send took, and never beyond what waits. */
  lemma {:induction false} AcceptingAdvances(script: seq<Sent>, n: nat, offset: nat, size: nat)
    requires n <= |script| && Accepting(script[..n]) && offset <= size
    ensures var total := TotalTaken(script[..n]);
            Advanced(script, offset, size)
            == if total < size - offset then Advanced(script[n..], offset + total, size) else (size, false)
    decreases n
  {
    if n == 0 {
      assert script[..0] == [] && script[0..] == script;
    } else if offset < size {
      var rest := script[1..];
      assert script[..n][1..] == rest[..n - 1] && rest[n - 1..] == script[n..];
      assert script[..n][0] == script[0];
      match script[0]
      case Taken(count) =>
        AcceptingAdvances(rest, n - 1, if count < size - offset then offset + count else size, size);
      case WriteInterrupted =>
        AcceptingAdvances(rest, n - 1, offset, size);
    }
  }

  /** What an answer that is neither an interrupt nor a positive count does while bytes wait. */
  lemma StopAnswers(script: seq<Sent>, offset: nat, size: nat)
    requires offset < size
    ensures script == [] ==> Advanced(script, offset, size) == (offset, false)
    ensures script != [] && script[0] == WriteBlocked ==> Advanced(script, offset, size) == (offset, false)
    ensures script != [] && (script[0] == WriteBroken || script[0] == Taken(0)) ==> Advanced(script, offset, size) == (offset, true)
  {
  }

  /**
   * A script of which the first n answers are interrupts and positive counts: all that waits is passed if the
   * counts reach that far. Otherwise the offset moves by their sum, and the loop closes if and only if the next
   * answer is an error or a count of zero.
   */
  ghost predicate AdvancesAsTaken(script: seq<Sent>, n: nat, offset: nat, size: nat, to: nat, closes: bool)
    requires n <= |script| && offset <= size
  {
    var total := TotalTaken(script[..n]);
    && (total >= size - offset ==> to == size && !closes)
    && (total < size - offset && (n == |script| || script[n] == WriteBlocked) ==> to == offset + total && !closes)
    && (total < size - offset && n < |script| && (script[n] == WriteBroken || script[n] == Taken(0)) ==>
          to == offset + total && closes)
  }

  lemma AdvancedAsTaken(script: seq<Sent>, offset: nat, size: nat)
    requires offset <= size
    ensures forall n: nat :: n <= |script| && Accepting(script[..n]) ==>
              AdvancesAsTaken(script, n, offset, size, Advanced(script, offset, size).0, Advanced(script, offset, size).1)
  {
    hide Advanced, TotalTaken;
    forall n: nat | n <= |script| && Accepting(script[..n])
      ensures AdvancesAsTaken(script, n, offset, size, Advanced(script, offset, size).0, Advanced(script, offset, size).1)
    {
      AcceptingAdvances(script, n, offset, size);
      var total := TotalTaken(script[..n]);
      if total < size - offset {
        StopAnswers(script[n..], offset + total, size);
      }
    }
  }

  /** Every script has such a beginning, behind which comes its end or an answer that stops the loop. */
  lemma AcceptingBeginning(script: seq<Sent>) returns (n: nat)
    ensures n <= |script| && Accepting(script[..n])
    ensures n < |script| ==> script[n] == WriteBlocked || script[n] == WriteBroken || script[n] == Taken(0)
  {
    n := 0;
    while n < |script| && (script[n].WriteInterrupted? || (script[n].Taken? && script[n].count > 0))
      invariant n <= |script| && Accepting(script[..n])
    {
      n := n + 1;
    }
  }

  /** The sum over a beginning, an answer at a time. */
  lemma {:induction false} TotalTakenSnoc(script: seq<Sent>, n: nat)
    requires n < |script|
    ensures TotalTaken(script[..0]) == 0
    ensures TotalTaken(script[..n + 1]) == TotalTaken(script[..n]) + if script[n].Taken? then script[n].count else 0
    decreases n
  {
    assert script[..n + 1][1..] == script[1..][..n];
    if n > 0 {
      TotalTakenSnoc(script[1..], n - 1);
      assert script[..n][1..] == script[1..][..n - 1];
    }
  }

  /** Three bytes taken of ten, then no more for now: seven still wait. */
  lemma PartialSend()
    ensures Advanced([Taken(3), WriteBlocked], 0, 10) == (3, false)
    ensures Advanced([Taken(3), WriteInterrupted, Taken(2), WriteBroken], 0, 10) == (5, true)
    ensures Advanced([Taken(3), Taken(8)], 0, 10) == (10, false)
  {
    assert [Taken(3), WriteBlocked][1..] == [WriteBlocked];
    assert [Taken(3), Taken(8)][1..] == [Taken(8)] && [Taken(8)][1..] == [];
    var script := [Taken(3), WriteInterrupted, Taken(2), WriteBroken];
    assert script[1..] == [WriteInterrupted, Taken(2), WriteBroken] && script[1..][1..] == [Taken(2), WriteBroken];
    assert script[1..][1..][1..] == [WriteBroken];
  }

  /** Nothing but chunks and interrupts. */
  predicate Arriving(script: seq<Received>)
  {
    forall i :: 0 <= i < |script| ==> script[i].Data? || script[i].ReadInterrupted?
  }

  /** The chunks in order. */
  function Arrived(script: seq<Received>): seq<bytes>
  {
    if script == [] then []
    else Arrived(script[..|script| - 1]) + if script[|script| - 1].Data? then [script[|script| - 1].chunk] else []
  }

  lemma {:induction false} ConcatSnoc(chunks: seq<bytes>, chunk: bytes)
    ensures Concat(chunks + [chunk]) == Concat(chunks) + chunk
  {
    if chunks == [] {
      assert (chunks + [chunk])[1..] == [] && Concat([]) == [];
    } else {
      assert (chunks + [chunk])[1..] == chunks[1..] + [chunk];
      ConcatSnoc(chunks[1..], chunk);
    }
  }

  /** What has arrived stands in front of what the rest of the script delivers. */
  lemma {:induction false} ArrivingDelivers(script: seq<Received>, n: nat)
    requires n <= |script| && Arriving(script[..n])
    ensures Delivered(script) == (Concat(Arrived(script[..n])) + Delivered(script[n..]).0, Delivered(script[n..]).1)
    decreases n
  {
    if n == 0 {
      assert script[..0] == [] && script[0..] == script && Arrived([]) == [] && Concat([]) == [];
      assert [] + Delivered(script).0 == Delivered(script).0;
    } else {
      hide Arrived, Concat;
      ArrivingDelivers(script, n - 1);
      ArrivedSnoc(script, n - 1);
      var tail := script[n - 1..];
      assert tail[0] == script[n - 1] && tail[1..] == script[n..];
      DeliveredHead(tail);
      var before, rest := Concat(Arrived(script[..n - 1])), Delivered(script[n..]).0;
      if script[n - 1].Data? {
        var chunk := script[n - 1].chunk;
        ConcatSnoc(Arrived(script[..n - 1]), chunk);
        assert before + (chunk + rest) == before + chunk + rest;
      } else {
        assert Arrived(script[..n - 1]) + [] == Arrived(script[..n - 1]);
      }
    }
  }

  lemma DeliveredHead(script: seq<Received>)
    requires script != []
    ensures script[0].Data? ==> Delivered(script) == (script[0].chunk + Delivered(script[1..]).0, Delivered(script[1..]).1)
    ensures script[0].ReadInterrupted? ==> Delivered(script) == Delivered(script[1..])
  {
  }

  lemma ArrivedSnoc(script: seq<Received>, n: nat)
    requires n < |script|
    ensures Arrived(script[..n + 1]) == Arrived(script[..n]) + if script[n].Data? then [script[n].chunk] else []
  {
    assert script[..n + 1][..n] == script[..n];
  }

  /**
   * A script of which the first n answers are chunks and interrupts, followed by its end or an answer that stops
   * the loop: the chunks are delivered in order, and the loop closes if and only if that answer is the end of the
   * stream or an error.
   */
  ghost predicate DeliversChunks(script: seq<Received>, n: nat, got: bytes, closes: bool)
    requires n <= |script|
  {
    StopsAt(script, n) ==> got == Concat(Arrived(script[..n])) && (closes <==> Hangup(script, n))
  }

  /** Behind n answers comes the end of the script or an answer that stops the loop. */
  predicate StopsAt(script: seq<Received>, n: nat)
    requires n <= |script|
  {
    n == |script| || (!script[n].Data? && !script[n].ReadInterrupted?)
  }

  predicate Hangup(script: seq<Received>, n: nat)
    requires n <= |script|
  {
    n < |script| && (script[n] == PeerClosed || script[n] == ReadBroken)
  }

  lemma DeliveredChunks(script: seq<Received>)
    ensures forall n: nat :: n <= |script| && Arriving(script[..n]) ==>
              DeliversChunks(script, n, Delivered(script).0, Delivered(script).1)
  {
    hide Arrived, Concat;
    forall n: nat | n <= |script| && Arriving(script[..n])
      ensures DeliversChunks(script, n, Delivered(script).0, Delivered(script).1)
    {
      ArrivingDelivers(script, n);
      if n < |script| {
        assert script[n..][0] == script[n];
      }
    }
  }

  lemma ArrivingBeginning(script: seq<Received>) returns (n: nat)
    ensures n <= |script| && Arriving(script[..n])
    ensures StopsAt(script, n)
  {
    n := 0;
    while n < |script| && (script[n].Data? || script[n].ReadInterrupted?)
      invariant n <= |script| && Arriving(script[..n])
    {
      n := n + 1;
    }
  }

  // ---------------------------------------------------------------------------
  // The class
  // ---------------------------------------------------------------------------

  class Connection<S(!new)> {
    const handler: (S, bytes) -> (S, bytes)
    const limit: Limit
    ghost const initial: S
    var handlerState: S
    var inputBuffer: bytes
    var outputBuffer: bytes
    var outputOffset: nat
    var phase: Phase

    /** One element for each readable event that was processed: the bytes it delivered. */
    ghost var chunks: seq<bytes>
    ghost var answered: seq<bytes>
    ghost var responses: seq<bytes>
    ghost var sent: bytes

    /**
     * Conservation: what was sent and what waits behind the offset are the frames of the responses, and the
     * k-th response answers the k-th request. A reader has nothing left to write.
     */
    ghost predicate ValidOutput()
      reads this
    {
      && outputOffset <= |outputBuffer|
      && sent + outputBuffer[outputOffset..] == Frames(responses)
      && responses == Answers(handler, initial, answered)
      && (phase == Reading ==> outputBuffer == [] && outputOffset == 0)
    }

    /** While open, the requests answered and the bytes waiting are what the events so far amount to. */
    ghost predicate Valid()
      reads this
    {
      && ValidOutput()
      && (phase != Closed ==>
            && Feed([], chunks, limit) == Drained(answered, inputBuffer)
            && handlerState == StateAfter(handler, initial, answered))
    }

    constructor (handler: (S, bytes) -> (S, bytes), limit: Limit, initial: S)
      ensures Valid() && phase == Reading && chunks == [] && answered == [] && sent == []
      ensures this.handler == handler && this.limit == limit && this.initial == initial
    {
      this.handler, this.limit, this.initial := handler, limit, initial;
      handlerState := initial;
      inputBuffer, outputBuffer, outputOffset, phase := [], [], 0, Reading;
      chunks, answered, responses, sent := [], [], [], [];
    }

    method Close()
      modifies this`phase
      ensures phase == Closed
    {
      phase := Closed;
    }

    /** Frames the response, or closes the connection when it is too large. */
    method QueueResponse(response: bytes)
      modifies this`phase, this`outputBuffer
      ensures old(phase) == Closed ==> phase == Closed && outputBuffer == old(outputBuffer)
      ensures old(phase) != Closed ==>
                if |response| > limit then phase == Closed && outputBuffer == old(outputBuffer)
                else phase == Writing && outputBuffer == old(outputBuffer) + Sized(response)
    {
      if phase == Closed {
        return;
      }
      var framed := MakeFrame(response, limit);
      if framed == [] && response != [] {
        Close();
        return;
      }
      assert |response| <= limit;
      outputBuffer := outputBuffer + framed;
      phase := Writing;
    }

    /** Answers the complete requests in the buffer one by one. */
    method ProcessMessages()
      requires phase != Closed
      modifies this`phase, this`outputBuffer, this`inputBuffer, this`handlerState, this`answered, this`responses
      ensures var v := Serve(handler, limit, old(inputBuffer), old(handlerState));
              && answered == old(answered) + v.answered && responses == old(responses) + v.responses
              && inputBuffer == v.rest && handlerState == v.state
              && outputBuffer == old(outputBuffer) + Frames(v.responses)
              && phase == (if v.overflow then Closed else if v.responses == [] then old(phase) else Writing)
    {
      hide Extract, Sized, Serve, Frames, Prepend;
      ghost var done, output: seq<bytes> := [], [];
      FramesOfNone();
      assert old(outputBuffer) + [] == old(outputBuffer);
      ServeStep(handler, limit, inputBuffer, handlerState, [], []);
      while phase != Closed
        invariant answered == old(answered) + done && responses == old(responses) + output
        invariant outputBuffer == old(outputBuffer) + Frames(output)
        invariant phase != Closed ==> phase == if output == [] then old(phase) else Writing
        invariant phase == Closed ==>
                    Serve(handler, limit, old(inputBuffer), old(handlerState)) == Served(done, output, inputBuffer, handlerState, true)
        invariant phase != Closed ==>
                    Serve(handler, limit, old(inputBuffer), old(handlerState))
                    == Prepend(done, output, Serve(handler, limit, inputBuffer, handlerState))
        decreases phase != Closed, |inputBuffer|
      {
        ServeStep(handler, limit, inputBuffer, handlerState, done, output);
        var more, request, response := AnswerOne();
        if !more {
          return;
        }
        if phase != Closed {
          FramesConcat(output, [response]);
          FramesOfOne(response);
          assert old(outputBuffer) + Frames(output) + Sized(response) == old(outputBuffer) + (Frames(output) + Sized(response));
          done, output := done + [request], output + [response];
        }
      }
    }

    /** One round of the loop: extract a request, run the handler, queue the response. */
    method AnswerOne() returns (more: bool, ghost request: bytes, ghost response: bytes)
      requires phase != Closed
      modifies this`phase, this`outputBuffer, this`inputBuffer, this`handlerState, this`answered, this`responses
      ensures match Extract(old(inputBuffer), limit)
              case NoFrame(rest) =>
                && !more && inputBuffer == rest && phase == old(phase) && handlerState == old(handlerState)
                && outputBuffer == old(outputBuffer) && answered == old(answered) && responses == old(responses)
              case GotFrame(r, rest) =>
                && more && request == r && inputBuffer == rest && (handlerState, response) == handler(old(handlerState), r)
                && if |response| > limit then
                     phase == Closed && outputBuffer == old(outputBuffer)
                     && answered == old(answered) && responses == old(responses)
                   else
                     phase == Writing && outputBuffer == old(outputBuffer) + Sized(response)
                     && answered == old(answered) + [r] && responses == old(responses) + [response]
    {
      hide Extract, Sized;
      var ok, payload, rest := TryExtractFrame(inputBuffer, limit);
      inputBuffer := rest;
      if !ok {
        return false, [], [];
      }
      var (state, answer) := handler(handlerState, payload);
      handlerState := state;
      QueueResponse(answer);
      if |answer| <= limit {
        answered, responses := answered + [payload], responses + [answer];
      }
      return true, payload, answer;
    }

    /** The recv loop: appends what arrives until there is no more, or closes. */
    method ReceiveAll(script: seq<Received>)
      requires phase != Closed
      modifies this`inputBuffer, this`phase
      ensures inputBuffer == old(inputBuffer) + Delivered(script).0
      ensures phase == if Delivered(script).1 then Closed else old(phase)
      ensures forall n: nat :: n <= |script| && Arriving(script[..n]) ==>
                DeliversChunks(script, n, inputBuffer[|old(inputBuffer)|..], phase == Closed)
    {
      DeliveredChunks(script);
      ghost var start := inputBuffer;
      ghost var got: bytes := [];
      var i := 0;
      assert script[0..] == script && got + Delivered(script).0 == Delivered(script).0;
      while i < |script|
        invariant 0 <= i <= |script|
        invariant inputBuffer == start + got && phase == old(phase)
        invariant Delivered(script) == (got + Delivered(script[i..]).0, Delivered(script[i..]).1)
      {
        assert script[i..][1..] == script[i + 1..];
        match script[i] {
          case Data(chunk) =>
            inputBuffer := inputBuffer + chunk;
            assert got + (chunk + Delivered(script[i + 1..]).0) == got + chunk + Delivered(script[i + 1..]).0;
            got := got + chunk;
          case ReadInterrupted =>
          case ReadBlocked => break;
          case PeerClosed => Close(); return;
          case ReadBroken => Close(); return;
        }
        i := i + 1;
      }
      assert got + [] == got;
    }

    /** Reads until recv has no more, then processes; a peer that closed is dropped with what it sent last. */
    method HandleReadable(script: seq<Received>)
      requires Valid()
      modifies this
      ensures Valid()
      ensures old(phase) == Closed ==> phase == Closed && responses == old(responses)
      ensures old(phase) != Closed ==>
                var (bytes, closes) := Delivered(script);
                if closes then phase == Closed && responses == old(responses) && chunks == old(chunks)
                else
                  var v := Serve(handler, limit, old(inputBuffer) + bytes, old(handlerState));
                  && chunks == old(chunks) + [bytes] && responses == old(responses) + v.responses
                  && phase == (if v.overflow then Closed else if v.responses == [] then old(phase) else Writing)
      ensures old(phase) != Closed ==>
                forall n: nat :: n <= |script| && Arriving(script[..n]) && StopsAt(script, n) ==>
                  if Hangup(script, n) then phase == Closed && responses == old(responses) && chunks == old(chunks)
                  else
                    var bytes := Concat(Arrived(script[..n]));
                    && chunks == old(chunks) + [bytes]
                    && responses == old(responses) + Serve(handler, limit, old(inputBuffer) + bytes, old(handlerState)).responses
      ensures sent == old(sent)
    {
      if phase == Closed {
        return;
      }
      DeliveredChunks(script);
      hide Serve, Feed, Drain, Frames, Answers, StateAfter, Delivered, Arriving, Arrived, Concat;
      ReceiveAll(script);
      if phase == Closed {
        return;
      }
      FeedSnoc([], chunks, Delivered(script).0, limit);
      AnswerWaiting(Delivered(script).0);
    }

    /** After the bytes of one readable event are in the buffer: answer what is complete. */
    method AnswerWaiting(ghost got: bytes)
      requires phase != Closed && ValidOutput()
      requires Feed([], chunks + [got], limit) == FedAnd(answered, Drain(inputBuffer, limit))
      requires handlerState == StateAfter(handler, initial, answered)
      modifies this
      ensures Valid() && chunks == old(chunks) + [got] && sent == old(sent)
      ensures var v := Serve(handler, limit, old(inputBuffer), old(handlerState));
              && responses == old(responses) + v.responses
              && phase == (if v.overflow then Closed else if v.responses == [] then old(phase) else Writing)
    {
      hide Serve, Feed, Drain, Frames, Answers, StateAfter;
      chunks := chunks + [got];
      Answering(answered, inputBuffer);
      FramesOfNone();
      ProcessMessages();
      WaitingGrows(sent, old(outputBuffer), outputOffset, Frames(Serve(handler, limit, old(inputBuffer), old(handlerState)).responses));
    }

    /** Serving what is in the buffer keeps requests and responses in step. */
    lemma Answering(before: seq<bytes>, input: bytes)
      ensures var s := StateAfter(handler, initial, before);
              var v := Serve(handler, limit, input, s);
              && Answers(handler, initial, before + v.answered) == Answers(handler, initial, before) + v.responses
              && Frames(Answers(handler, initial, before) + v.responses) == Frames(Answers(handler, initial, before)) + Frames(v.responses)
              && (!v.overflow ==> Drain(input, limit) == Drained(v.answered, v.rest)
                                  && v.state == StateAfter(handler, initial, before + v.answered))
    {
      hide Serve, Drain;
      var s := StateAfter(handler, initial, before);
      var v := Serve(handler, limit, input, s);
      ServeIsDrain(handler, limit, input, s);
      AnswersConcat(handler, initial, before, v.answered);
      FramesConcat(Answers(handler, initial, before), v.responses);
    }

    /** Sends until send takes no more; once everything is out, goes back to reading and to waiting requests. */
    method HandleWritable(script: seq<Sent>)
      requires Valid()
      modifies this
      ensures Valid()
      ensures old(phase) == Closed ==> phase == Closed && sent == old(sent) && responses == old(responses)
      ensures old(phase) != Closed ==>
                var (to, closes) := Advanced(script, old(outputOffset), |old(outputBuffer)|);
                && sent == old(sent) + old(outputBuffer)[old(outputOffset)..to]
                && (closes ==> phase == Closed)
                && (!closes ==> phase == if to == |old(outputBuffer)| then Reading else old(phase))
      ensures old(phase) != Closed ==>
                |sent| >= |old(sent)| &&
                forall n: nat :: n <= |script| && Accepting(script[..n]) ==>
                  AdvancesAsTaken(script, n, old(outputOffset), |old(outputBuffer)|,
                                  old(outputOffset) + |sent| - |old(sent)|, phase == Closed)
      ensures responses == old(responses) && answered == old(answered) && chunks == old(chunks)
    {
      if phase == Closed {
        return;
      }
      AdvancedAsTaken(script, outputOffset, |outputBuffer|);
      hide Serve, Feed, Drain, Frames, Answers, StateAfter, Advanced, Accepting, AdvancesAsTaken;
      SendAll(script);
      SentAndWaiting(old(sent), outputBuffer, old(outputOffset), old(outputOffset), outputOffset);
      if phase == Closed || outputOffset < |outputBuffer| {
        return;
      }
      FinishWriting();
    }

    /** Everything has been written: empty the buffer and look at requests already waiting. */
    method FinishWriting()
      requires Valid() && phase != Closed && outputOffset == |outputBuffer|
      modifies this
      ensures Valid() && phase == Reading
      ensures sent == old(sent) && responses == old(responses) && answered == old(answered) && chunks == old(chunks)
    {
      hide Serve, Feed, Drain, Frames, Answers, StateAfter;
      assert outputBuffer[outputOffset..] == [] && sent + [] == sent;
      outputBuffer := [];
      outputOffset := 0;
      phase := Reading;
      NothingWaits(chunks, answered, inputBuffer);
      ProcessMessages();
      assert answered == old(answered) && responses == old(responses);
      assert outputBuffer == [] && sent + [] == sent;
    }

    /** The send loop: moves the offset until everything is out, send takes no more, or it fails. */
    method SendAll(script: seq<Sent>)
      requires phase != Closed && outputOffset <= |outputBuffer|
      modifies this`outputOffset, this`sent, this`phase
      ensures outputOffset == Advanced(script, old(outputOffset), |outputBuffer|).0
      ensures sent == old(sent) + outputBuffer[old(outputOffset)..outputOffset]
      ensures phase == if Advanced(script, old(outputOffset), |outputBuffer|).1 then Closed else old(phase)
      ensures forall n: nat :: n <= |script| && Accepting(script[..n]) ==>
                AdvancesAsTaken(script, n, old(outputOffset), |outputBuffer|, outputOffset, phase == Closed)
    {
      AdvancedAsTaken(script, outputOffset, |outputBuffer|);
      hide Accepting, AdvancesAsTaken;
      var i := 0;
      assert script[0..] == script;
      while outputOffset < |outputBuffer| && i < |script|
        invariant 0 <= i <= |script| && phase == old(phase)
        invariant old(outputOffset) <= outputOffset <= |outputBuffer|
        invariant sent == old(sent) + outputBuffer[old(outputOffset)..outputOffset]
        invariant Advanced(script, old(outputOffset), |outputBuffer|) == Advanced(script[i..], outputOffset, |outputBuffer|)
        decreases |script| - i
      {
        assert script[i..][1..] == script[i + 1..];
        match script[i] {
          case Taken(count) =>
            if count == 0 {
              Close();
              return;
            }
            ghost var was := outputOffset;
            outputOffset := if count < |outputBuffer| - outputOffset then outputOffset + count else |outputBuffer|;
            sent := sent + outputBuffer[was..outputOffset];
            SentAndWaiting(old(sent), outputBuffer, old(outputOffset), was, outputOffset);
          case WriteInterrupted =>
          case WriteBlocked => return;
          case WriteBroken => Close(); return;
        }
        i := i + 1;
      }
    }

    /** A second pass over an already drained buffer finds no request. */
    lemma NothingWaits(chunks: seq<bytes>, answered: seq<bytes>, input: bytes)
      requires Feed([], chunks, limit) == Drained(answered, input)
      ensures forall s: S :: Serve(handler, limit, input, s) == Served([], [], input, s, false)
      ensures Frames([]) == []
    {
      FeedRestIsDry([], chunks, limit);
      hide Feed, Extract;
    }
  }

  /**
   * A client that has sent whole frames and part of another: however its bytes arrived, what it was sent and
   * what waits for it are the frames of exactly the answers to its whole requests, in order, and the partial
   * request waits in the input.
   */
  lemma TranscriptOfFrames<S(!new)>(connection: Connection<S>, requests: seq<bytes>, last: bytes, j: nat)
    requires connection.Valid() && connection.phase != Closed
    requires AllWithin(requests, connection.limit) && |last| <= connection.limit && j < 4 + |last|
    requires Concat(connection.chunks) == Frames(requests) + Sized(last)[..j]
    ensures connection.sent + connection.outputBuffer[connection.outputOffset..]
         == Frames(Answers(connection.handler, connection.initial, requests))
    ensures connection.inputBuffer == Sized(last)[..j]
  {
    hide Feed, Frames, Concat, Answers, StateAfter, Sized;
    FramesSurviveAnyCut(requests, last, j, connection.chunks, connection.limit);
  }

  lemma WaitingGrows(sent: bytes, output: bytes, offset: nat, more: bytes)
    requires offset <= |output|
    ensures sent + (output + more)[offset..] == sent + output[offset..] + more
  {
  }

  lemma SentAndWaiting(earlier: bytes, buffer: bytes, from: nat, was: nat, to: nat)
    requires from <= was <= to <= |buffer|
    ensures earlier + buffer[from..was] + buffer[was..to] == earlier + buffer[from..to]
    ensures earlier + buffer[was..] == earlier + buffer[was..to] + buffer[to..]
  {
    assert buffer[was..] == buffer[was..to] + buffer[to..];
  }

  lemma {:induction false} FeedRestIsDry(buffer: bytes, chunks: seq<bytes>, limit: Limit)
    requires Drain(buffer, limit) == Drained([], buffer)
    ensures Drain(Feed(buffer, chunks, limit).rest, limit) == Drained([], Feed(buffer, chunks, limit).rest)
    decreases |chunks|
  {
    hide Extract;
    if chunks != [] {
      DrainRestIsDry(buffer + chunks[0], limit);
      FeedRestIsDry(Drain(buffer + chunks[0], limit).rest, chunks[1..], limit);
    }
  }
}
