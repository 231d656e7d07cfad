/** One request through the proxy: `_proxy`, `_fail` and the forwarding of the response. */
module ProxyHandler {
  import opened Text
  import opened ChunkedCoding
  import opened ProxyHeaders
  import opened ProxyStreams
  import opened ProxyDrain
  import PyInt

  /** `close` is the verdict of the HTTP library on the request's own Connection field. */
  datatype Request = Request(command: string, headers: Headers, close: bool)

  /** A backend's answer: its body is what the backend delivers before its connection ends. */
  datatype Reply = Reply(status: int, headers: Headers, body: string)

  datatype Response = Response(status: int, headers: Headers, body: string)

  datatype Ending =
    | Rejected               // 400, the Content-Length does not parse
    | Failed(why: Outcome, late: bool)   // 502; `late` once the whole body has been sent
    | Forwarded              // the backend's answer went to the client
    | Crashed                // writing to the client raised: the library closes the connection

  // ----- what the body of a request is

  /** What follows the body, if all of the body is there. */
  function AfterBody(intake: Intake, s: string): (r: Option<string>)
    ensures r.Some? ==> |r.value| <= |s|
  {
    match intake
    case Refused => None
    case TakeNothing => Some(s)
    case TakeBytes(length) =>
      var n := if length < 0 then 0 else length;
      if n <= |s| then Some(s[n..]) else None
    case TakeChunks =>
      DoneLeavesLess(s);
      if Decode(s).Done? then Some(Decode(s).rest) else None
  }

  lemma DoneLeavesLess(s: string)
    ensures Decode(s).Done? ==> |Decode(s).rest| <= |s|
  {
    RestIsShorter(s);
  }

  function Payload(intake: Intake, s: string): string
    requires AfterBody(intake, s).Some?
  {
    match intake
    case TakeNothing => []
    case TakeBytes(length) => s[..if length < 0 then 0 else length]
    case TakeChunks => Concat(Decode(s).chunks)
  }

  /** A body without chunks and what follows it make up the input. */
  lemma WhatPlainBodiesAre(n: int, s: string)
    ensures AfterBody(TakeNothing, s) == Some(s) && Payload(TakeNothing, s) == []
    ensures AfterBody(TakeBytes(n), s) == None <==> |s| < n
    ensures n < 0 ==> AfterBody(TakeBytes(n), s) == Some(s) && Payload(TakeBytes(n), s) == []
    ensures 0 <= n <= |s| ==>
      && |Payload(TakeBytes(n), s)| == n
      && s == Payload(TakeBytes(n), s) + AfterBody(TakeBytes(n), s).value
    ensures AfterBody(Refused, s) == None
  {
  }

  /** A chunked body as section 4.1 of RFC 7230 writes it carries the data of its chunks. */
  lemma WhatChunkedBodiesAre(chunks: seq<WireChunk>, zero: string, ext: string,
                             fields: seq<string>, t: string)
    requires forall i | 0 <= i < |chunks| :: ValidChunk(chunks[i])
    requires PyInt.AllHex(zero) && PyInt.HexValue(zero) == 0 && IsExtension(ext)
    requires forall i | 0 <= i < |fields| :: IsTrailer(fields[i])
    ensures
      var s := Wire(chunks) + (zero + ext + CRLF + (Trailers(fields) + (CRLF + t)));
      AfterBody(TakeChunks, s) == Some(t) && Payload(TakeChunks, s) == Concat(Data(chunks))
  {
    hide Decode;
    EveryRfcBodyDecodes(chunks, zero, ext, fields, t);
  }

  // ----- what the body of a response is

  predicate Bodiless(command: string, status: int) {
    status == 204 || status == 304 || command == "HEAD" || 100 <= status < 200
  }

  /** How many body bytes a client on a kept connection takes from a response (section 3.3.3 of
      RFC 7230); `None` if it cannot tell before the connection closes. */
  function ResponseLength(command: string, response: Response): Option<nat> {
    var lengths := Values(response.headers, "content-length");
    if Bodiless(command, response.status) then Some(0)
    else if lengths == [] then None
    else AgreedLength(lengths)
  }

  /** The backend's part of the bargain: a body it frames by Content-Length has that length, and a
      response that has no body brings none. */
  predicate DeliversInFull(command: string, reply: Reply) {
    var lengths := SafeValues(reply.headers, "content-length");
    if Bodiless(command, reply.status) then reply.body == []
    else lengths != [] ==> AgreedLength(lengths) == Some(|reply.body|)
  }

  predicate AdvertisesClose(response: Response) {
    Values(response.headers, "connection") == ["close"]
  }

  /** Whether the answer leaves the end of its body to the end of the connection. */
  predicate MustClose(command: string, reply: Reply) {
    SafeValues(reply.headers, "content-length") == [] && !Bodiless(command, reply.status)
  }

  /** Without a usable Content-Length only four kinds of answer leave the connection open. */
  lemma WhenAnswerMustClose(command: string, reply: Reply)
    ensures MustClose(command, reply) <==>
      && SafeValues(reply.headers, "content-length") == [] && command != "HEAD"
      && reply.status != 204 && reply.status != 304 && !(100 <= reply.status <= 199)
  {
  }

  /** A body without a length closes; with its length it does not, and the client finds its end. */
  lemma OrdinaryReplies()
    ensures MustClose("GET", Reply(200, [], "abc"))
    ensures var reply := Reply(200, [("Content-Length", "3")], "abc");
      && !MustClose("GET", reply) && DeliversInFull("GET", reply)
      && ResponseLength("GET", Response(200, reply.headers, reply.body)) == Some(3)
    ensures !MustClose("HEAD", Reply(200, [], [])) && !MustClose("GET", Reply(304, [], []))
  {
    OneField("Content-Length", "3", "content-length");
    assert Lower("Content-Length") == "content-length";
    assert IsSafeHeader("Content-Length", "3");
    TrimTight("3");
    PyInt.ShortNumerals();
  }

  // ----- the handler

  /** A backend as one request meets it. `reply` is `None` when getresponse() raises OSError. */
  class Backend {
    const reachable: bool
    const reply: Option<Reply>
    const wire: Sink
    var head: Headers

    constructor (reachable: bool, reply: Option<Reply>, faulty: bool)
      ensures fresh(wire) && wire.out == []
      ensures this.reachable == reachable && this.reply == reply && wire.faulty == faulty
    {
      this.reachable, this.reply, head := reachable, reply, [];
      wire := new Sink(faulty);
    }
  }

  class Handler {
    const rfile: Reader
    const clientGone: bool  // writes to the client may raise OSError
    var closeConnection: bool

    constructor (rfile: Reader, clientGone: bool)
      ensures this.rfile == rfile && this.clientGone == clientGone
    {
      this.rfile, this.clientGone, closeConnection := rfile, clientGone, true;
    }

    /** `send_error` of the HTTP library: it always announces and marks the close. */
    method SendError(code: int) returns (response: Option<Response>)
      modifies this
      ensures closeConnection
      ensures response.Some? ==>
        AdvertisesClose(response.value) && response.value.status == code
    {
      closeConnection := true;
      var fails: bool := *;
      if clientGone && fails {
        response := None;
      } else {
        response := Some(Response(code, [("Connection", "close")], []));
        CloseAlone();
      }
    }

    /** `_fail`. */
    method Fail(clRemaining: Option<int>, isChunked: bool) returns (response: Option<Response>)
      requires rfile.Valid()
      modifies this, rfile
      ensures rfile.Valid() && old(rfile.pos) <= rfile.pos
      ensures rfile.bulk - old(rfile.bulk) <= DRAIN_CAP
      ensures !rfile.faulty ==>
        Drained(clRemaining, isChunked, old(rfile.Rest()), rfile.Rest())
      ensures closeConnection
      ensures response.Some? ==>
        AdvertisesClose(response.value) && response.value.status == 502
    {
      closeConnection := true;
      DrainRequestBody(rfile, clRemaining, isChunked);
      response := SendError(502);
    }

    /** Forward the backend's answer: status, safe end-to-end headers, body. */
    method Answer(command: string, reply: Reply) returns (response: Option<Response>)
      modifies this
      ensures closeConnection <==>
        || old(closeConnection)
        || (&& SafeValues(reply.headers, "content-length") == [] && command != "HEAD"
            && reply.status != 204 && reply.status != 304 && !(100 <= reply.status <= 199))
      ensures response.Some? ==> IsAnswer(reply, closeConnection, response.value)
      ensures !clientGone ==> response.Some? && response.value.body == reply.body
    {
      var headers, hasLength := AnswerHeaders(reply.headers);
      if closeConnection || (!hasLength && !Bodiless(command, reply.status)) {
        AddClose(reply.headers, headers);
        headers := headers + [("Connection", "close")];
        closeConnection := true;
      }
      var fails: bool := *;
      if clientGone && fails {
        return None;
      }
      var copied := |reply.body|;
      if clientGone {
        copied :| 0 <= copied <= |reply.body|;
      }
      response := Some(Response(reply.status, headers, reply.body[..copied]));
    }

    /** Stream the request body to the backend, whichever way it is framed. */
    method SendBody(intake: Intake, wire: Sink) returns (result: Outcome, clRemaining: Option<int>)
      requires rfile.Valid() && rfile as object != wire && wire.out == []
      requires !intake.Refused?
      modifies rfile, wire
      ensures rfile.Valid() && old(rfile.pos) <= rfile.pos
      // Sent: the reader stands at the end of the body, and the backend has one complete body
      // with the same payload and nothing after it.
      ensures result.Sent? ==>
        && AfterBody(intake, old(rfile.Rest())) == Some(rfile.Rest())
        && AfterBody(intake, wire.out) == Some([])
        && Payload(intake, wire.out) == Payload(intake, old(rfile.Rest()))
      ensures result.OsError? && intake.TakeChunks? && !rfile.faulty ==>
        SendBroke(old(rfile.Rest()), rfile.Rest(), !rfile.short)
      // A broken or truncated upload never looks complete to the backend, and with full reads no
      // other upload is reported as one.
      ensures result.BodyError? ==> AfterBody(intake, wire.out).None?
      ensures result.BodyError? && !rfile.short ==> AfterBody(intake, old(rfile.Rest())).None?
      ensures Benign(rfile, wire) ==>
        (result.Sent? <==> AfterBody(intake, old(rfile.Rest())).Some?) && !result.OsError?
      ensures clRemaining.Some? <==> intake.TakeBytes?
      ensures clRemaining.Some? ==>
        rfile.pos <= old(rfile.pos) + (if intake.length < 0 then 0 else intake.length)
      ensures result.Sent? && clRemaining.Some? ==> clRemaining.value <= 0
      ensures !result.Sent? && clRemaining.Some? ==>
        intake.length - (rfile.pos - old(rfile.pos)) <= clRemaining.value <= intake.length
    {
      match intake {
        case TakeNothing =>
          return Sent, None;
        case TakeBytes(length) =>
          var remaining;
          result, remaining := ForwardFixed(rfile, wire, length);
          ghost var n := if length < 0 then 0 else length;
          assert result.Sent? ==> |wire.out| == n && wire.out[..n] == wire.out;
          clRemaining := Some(remaining);
        case TakeChunks =>
          ghost var pieces, tail;
          result, pieces, tail := StreamChunkedBody(rfile, wire);
          BodyOnTheWire(pieces, tail, result.Sent?, wire.out);
          clRemaining := None;
      }
    }

    /** `_proxy`: one request, whose head has been read, through to its response. */
    method Proxy(request: Request, name: string, backend: Backend)
      returns (ending: Ending, response: Option<Response>, ghost stopped: string)
      requires rfile.Valid() && rfile as object != backend.wire && backend.wire.out == []
      requires backend as object != rfile && backend as object != backend.wire
      requires this as object != rfile && this as object != backend.wire && this as object != backend
      modifies this, rfile, backend, backend.wire
      ensures rfile.Valid() && old(rfile.pos) <= rfile.pos
      ensures ending.Rejected? <==> IntakeOf(request.headers).Refused?
      ensures ending.Forwarded? ==>
        var intake := IntakeOf(request.headers);
        // the client's side: the reader stands exactly after this request's body;
        && AfterBody(intake, old(rfile.Rest())) == Some(rfile.Rest())
        // the backend's side: the head announces, and the wire holds, that same body;
        && (forall field :: Values(backend.head, field)
              == HeadValues(request.headers, name, intake.TakeChunks?, field))
        && AfterBody(intake, backend.wire.out) == Some([])
        && Payload(intake, backend.wire.out) == Payload(intake, old(rfile.Rest()))
        // the response: the backend's, and closing exactly when it has to.
        && backend.reply.Some? && response.Some?
        && (closeConnection <==> old(closeConnection)
                                 || MustClose(request.command, backend.reply.value))
        && IsAnswer(backend.reply.value, closeConnection, response.value)
        && (!clientGone ==> response.value.body == backend.reply.value.body)
      // With a healthy client and backend, a request is answered exactly when its body is whole.
      ensures Benign(rfile, backend.wire) && !clientGone && backend.reachable && backend.reply.Some?
        ==> (ending.Forwarded? <==> AfterBody(IntakeOf(request.headers), old(rfile.Rest())).Some?)
      // If the backend cannot be reached, an upload that is all there has been read to its end
      // exactly if it fits the cap: then the client can see the 502, not a reset.
      ensures ending.Failed? && !rfile.faulty && !backend.reachable ==>
        UploadDrained(IntakeOf(request.headers), old(rfile.Rest()), rfile.Rest())
      // Wherever a fixed-length upload fails, none of it is left unread exactly if what was still to
      // be read of it fits the cap; if the backend had all of it, nothing is touched after it.
      ensures ending.Failed? && !rfile.faulty ==>
        RemainderDrained(IntakeOf(request.headers), old(rfile.Rest()), stopped, rfile.Rest())
      ensures ending.Failed? && !rfile.faulty && ending.late
              && !IntakeOf(request.headers).TakeChunks? ==>
        AfterBody(IntakeOf(request.headers), old(rfile.Rest())) == Some(rfile.Rest())
      // A chunked upload is drained from where it stopped: from its end if the backend has all of
      // it, else from where the failed send left it. WhenBrokenUploadIsDrained says what remains.
      ensures ending.Failed? && !rfile.faulty && IntakeOf(request.headers).TakeChunks?
              && backend.reachable ==>
        && rfile.Rest() == DrainedTo(stopped, DRAIN_CAP)
        && (ending.late ==> AfterBody(TakeChunks, old(rfile.Rest())) == Some(stopped))
        && (!ending.late && ending.why.OsError? ==>
              SendBroke(old(rfile.Rest()), stopped, !rfile.short))
      ensures !ending.Forwarded? && !ending.Crashed? ==> closeConnection
      ensures ending.Failed? && ending.why.BodyError? ==>
        && AfterBody(IntakeOf(request.headers), backend.wire.out).None?
        && (!rfile.short ==> AfterBody(IntakeOf(request.headers), old(rfile.Rest())).None?)
      // Every response that reached the client says so when the connection closes.
      ensures response.Some? ==> (AdvertisesClose(response.value) <==> closeConnection)
      ensures ending.Rejected? && response.Some? ==> response.value.status == 400
      ensures ending.Failed? && response.Some? ==> response.value.status == 502
      ensures ending.Crashed? ==> response.None? && clientGone
    {
      var intake := IntakeOf(request.headers);
      stopped := rfile.Rest();
      if intake.Refused? {
        response := SendError(400);
        return Rejected, response, stopped;
      }
      var chunked := intake.TakeChunks?;
      if !backend.reachable {
        response := Fail(if intake.TakeBytes? then Some(intake.length) else None, chunked);
        if !rfile.faulty {
          DrainOfUpload(intake, stopped, rfile.Rest());
        }
        return Failed(OsError, false), response, stopped;
      }
      backend.head := RequestHead(request.headers, name, chunked);
      var sent, clRemaining := SendBody(intake, backend.wire);
      stopped := rfile.Rest();
      if !sent.Sent? || backend.reply.None? {
        response := Fail(clRemaining, chunked);
        return Failed(if sent.Sent? then OsError else sent, sent.Sent?), response, stopped;
      }
      response := Answer(request.command, backend.reply.value);
      ending := if response.Some? then Forwarded else Crashed;
    }
  }

  /** A chunked drain stops as soon as the cap is used up, before the terminator is read. */
  predicate FitsCap(intake: Intake, size: nat) {
    if intake.TakeChunks? then size < DRAIN_CAP else size <= DRAIN_CAP
  }

  /** An upload that is all there has been read to its end exactly if it fits the cap. */
  ghost predicate UploadDrained(intake: Intake, before: string, after: string) {
    AfterBody(intake, before).Some? ==>
      (AfterBody(intake, before) == Some(after) <==> FitsCap(intake, |Payload(intake, before)|))
  }

  lemma DrainOfUpload(intake: Intake, before: string, after: string)
    requires !intake.Refused?
    requires Drained(if intake.TakeBytes? then Some(intake.length) else None, intake.TakeChunks?,
                     before, after)
    ensures UploadDrained(intake, before, after)
  {
    hide Decode, DrainedTo, Concat;
    if intake.TakeChunks? && Decode(before).Done? {
      WholeBodyIsDrained(before, DRAIN_CAP);
    }
  }

  /** The same from wherever the forwarding of a fixed-length upload stopped. */
  ghost predicate RemainderDrained(intake: Intake, before: string, stopped: string, after: string) {
    intake.TakeBytes? && AfterBody(intake, before).Some? ==>
      var left := |AfterBody(intake, before).value|;
      left <= |stopped| && (|after| <= left <==> |stopped| - left <= DRAIN_CAP)
  }

  ghost predicate IsAnswer(reply: Reply, closing: bool, response: Response) {
    && response.status == reply.status && response.body <= reply.body
    && forall name :: Values(response.headers, name) == AnswerValues(reply.headers, closing, name)
  }

  /** What these promises of `_proxy` say of a whole upload of `n` bytes, or of chunks. */
  lemma WhatTheDrainPromises(n: nat, before: string, stopped: string, after: string)
    ensures n <= |before| && UploadDrained(TakeBytes(n), before, after) ==>
      (after == before[n..] <==> n <= 524288)
    ensures Decode(before).Done? && UploadDrained(TakeChunks, before, after) ==>
      (after == Decode(before).rest <==> |Concat(Decode(before).chunks)| < 524288)
    ensures n <= |before| && RemainderDrained(TakeBytes(n), before, stopped, after) ==>
      (|after| <= |before| - n <==> |stopped| - (|before| - n) <= 524288)
  {
    hide Decode, Concat;
  }

  /** And of an answer: the backend's status, its body as far as it went, and its values under every
      name that is not hop-by-hop and that no field with a line break has. */
  lemma WhatTheAnswerIs(reply: Reply, closing: bool, response: Response, name: string)
    requires IsAnswer(reply, closing, response)
    ensures response.status == reply.status && response.body <= reply.body
    ensures closing ==> Values(response.headers, "connection") == ["close"]
    ensures !closing ==> Values(response.headers, "connection") == []
    ensures
      && (forall i | 0 <= i < |reply.headers| && Lower(reply.headers[i].0) == name ::
            && '\r' !in reply.headers[i].0 && '\n' !in reply.headers[i].0
            && '\r' !in reply.headers[i].1 && '\n' !in reply.headers[i].1)
      && name !in ["connection", "keep-alive", "proxy-authenticate", "proxy-authorization",
                   "proxy-connection", "te", "trailer", "transfer-encoding", "upgrade"] ==>
        Values(response.headers, name) == Values(reply.headers, name)
  {
    hide Values, EndToEndValues;
    assert Values(response.headers, "connection")
        == AnswerValues(reply.headers, closing, "connection");
    WhatNobodySees(reply.headers, "", false, "connection");
    assert Values(response.headers, name) == AnswerValues(reply.headers, closing, name);
    if (forall i | 0 <= i < |reply.headers| && Lower(reply.headers[i].0) == name ::
          IsSafeHeader(reply.headers[i].0, reply.headers[i].1))
       && name !in ["connection", "keep-alive", "proxy-authenticate", "proxy-authorization",
                    "proxy-connection", "te", "trailer", "transfer-encoding", "upgrade"] {
      WhatTheBackendSees(reply.headers, "", false, name);
    }
  }

  lemma BodyOnTheWire(pieces: seq<string>, tail: string, complete: bool, out: string)
    requires Bounded(pieces)
    requires complete ==> out == [] + Frames(pieces) + LAST_CHUNK
    requires !complete ==> OpenTail(tail) && out == [] + Frames(pieces) + tail
    ensures complete ==> Decode(out) == Done(pieces, [])
    ensures !complete ==> Decode(out).Fault?
  {
    assert [] + Frames(pieces) == Frames(pieces);
    if complete {
      CompleteBodyDecodes(pieces, []);
      assert out + [] == out;
    } else {
      OpenBodyNeverLooksComplete(pieces, tail, out);
    }
  }
}
