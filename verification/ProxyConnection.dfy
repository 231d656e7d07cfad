/** A whole client connection: one request after another until the connection closes. */
module ProxyConnection {
  import opened Text
  import opened ChunkedCoding
  import opened ProxyHeaders
  import opened ProxyStreams
  import opened ProxyHandler

  /** What the HTTP library makes of a request head: its length on the wire and the request. */
  datatype Head = Head(size: nat, request: Request)

  type HeadParser = string -> Option<Head>

  ghost predicate ReadsHeads(parse: HeadParser) {
    forall s :: parse(s).Some? ==> 0 < parse(s).value.size <= |s|
  }

  /** `payload` is `None` when the body is not all there or has no valid framing. */
  datatype Message = Message(request: Request, payload: Option<string>)

  /** The messages a byte stream is made of, read as section 3.3.3 of RFC 7230 has it: a head, the
      body its framing gives it, the next head. Nothing can be read after a message without an
      end. */
  ghost function Messages(parse: HeadParser, s: string): seq<Message>
    requires ReadsHeads(parse)
    decreases |s|
  {
    match parse(s)
    case None => []
    case Some(head) =>
      var framing := Intended(RfcFraming(head.request.headers));
      var rest := s[head.size..];
      match AfterBody(framing, rest)
      case None => [Message(head.request, None)]
      case Some(next) =>
        [Message(head.request, Some(Payload(framing, rest)))] + Messages(parse, next)
  }

  /** The backend that a request of the connection meets: whether it can be reached, what it
      answers, and whether taking the request may fail. */
  datatype Conduct = Conduct(name: string, reachable: bool, reply: Option<Reply>, faulty: bool)

  predicate Healthy(c: Conduct) { c.reachable && c.reply.Some? && !c.faulty }

  /** What became of one request. */
  datatype Exchange = Exchange(request: Request, conduct: Conduct, ending: Ending,
                               response: Option<Response>, sentHead: Headers, sentBody: string)

  /** The requests on which the proxy frames the body as the RFC does. */
  predicate FramedAlike(headers: Headers) {
    !RfcFraming(headers).Invalid? && CodingIsTaken(headers)
  }

  /** The backend got the message: under the framing its own head announces, what it was sent is
      one complete body, nothing more, with the client's payload. */
  ghost predicate Delivered(e: Exchange, m: Message) {
    var framing := Intended(RfcFraming(e.sentHead));
    && AfterBody(framing, e.sentBody) == Some([])
    && m.payload == Some(Payload(framing, e.sentBody))
  }

  /** The client can tell where the response ends without the connection closing. */
  ghost predicate SelfDelimiting(e: Exchange) {
    && e.response.Some? && !AdvertisesClose(e.response.value)
    && ResponseLength(e.request.command, e.response.value) == Some(|e.response.value.body|)
  }

  /** One request on a connection: the part of its meaning that the next one relies on. */
  lemma ForwardedInStep(headers: Headers, name: string, head: Headers, rest: string, after: string,
                        wire: string)
    requires FramedAlike(headers)
    requires AfterBody(IntakeOf(headers), rest) == Some(after)
    requires forall field ::
      Values(head, field) == HeadValues(headers, name, IntakeOf(headers).TakeChunks?, field)
    requires AfterBody(IntakeOf(headers), wire) == Some([])
    requires Payload(IntakeOf(headers), wire) == Payload(IntakeOf(headers), rest)
    ensures AfterBody(Intended(RfcFraming(headers)), rest) == Some(after)
    ensures AfterBody(Intended(RfcFraming(head)), wire) == Some([])
    ensures Payload(Intended(RfcFraming(head)), wire)
         == Payload(Intended(RfcFraming(headers)), rest)
  {
    IntakeFollowsRfc(headers);
    HeadAnnouncesBody(headers, name, head);
  }

  /** A kept response is self-delimiting if the backend delivered it in full. */
  lemma KeptResponseIsDelimited(command: string, reply: Reply, response: Response)
    requires !MustClose(command, reply) && DeliversInFull(command, reply)
    requires IsAnswer(reply, false, response) && response.body == reply.body
    ensures ResponseLength(command, response) == Some(|response.body|)
    ensures !AdvertisesClose(response)
  {
    assert Values(response.headers, "content-length")
        == AnswerValues(reply.headers, false, "content-length");
    assert Values(response.headers, "connection")
        == AnswerValues(reply.headers, false, "connection");
  }

  /** A served request is this message: if it was forwarded, the backend got it; and with a calm
      client and a healthy backend it was forwarded exactly if its body was all there. */
  ghost predicate Matches(e: Exchange, m: Message, calm: bool) {
    && e.request == m.request
    && (e.ending.Forwarded? ==> Delivered(e, m))
    && (calm && Healthy(e.conduct) ==> (e.ending.Forwarded? <==> m.payload.Some?))
  }

  /** The served requests are the first messages of the stream. */
  ghost predicate InStep(exchanges: seq<Exchange>, messages: seq<Message>, calm: bool) {
    && |exchanges| <= |messages|
    && forall i | 0 <= i < |exchanges| :: Matches(exchanges[i], messages[i], calm)
  }

  ghost predicate AllFramedAlike(exchanges: seq<Exchange>) {
    forall i | 0 <= i < |exchanges| :: FramedAlike(exchanges[i].request.headers)
  }

  /** If the first `n` requests are framed alike, they are the first messages, and so is the request
      that comes next, however that one is framed. */
  ghost predicate InStepUpTo(exchanges: seq<Exchange>, messages: seq<Message>, n: nat, calm: bool)
    requires n <= |exchanges|
  {
    AllFramedAlike(exchanges[..n]) ==>
      && InStep(exchanges[..n], messages, calm)
      && (n < |exchanges| ==>
            n < |messages| && exchanges[n].request == messages[n].request)
  }

  /** The connection is still open after this response. */
  ghost predicate StaysOpen(e: Exchange) {
    e.response.Some? && !AdvertisesClose(e.response.value)
  }

  ghost predicate StillOpen(exchanges: seq<Exchange>) {
    exchanges == [] || StaysOpen(exchanges[|exchanges| - 1])
  }

  /** It stays open exactly after an answer that came from the backend and has an end of its own,
      unless the client asked for the close. */
  ghost predicate KeptExactly(e: Exchange) {
    StaysOpen(e) <==>
      && e.ending.Forwarded? && e.conduct.reply.Some? && !e.request.close
      && HasAnEnd(e.request.command, e.conduct.reply.value)
  }

  predicate HasAnEnd(command: string, reply: Reply) {
    || SafeValues(reply.headers, "content-length") != []
    || command == "HEAD" || reply.status == 204 || reply.status == 304
    || 100 <= reply.status <= 199
  }

  /** The client can tell where a response ends that leaves the connection open. */
  ghost predicate Kept(e: Exchange, clientGone: bool) {
    && StaysOpen(e) && e.conduct.reply.Some?
    && (!clientGone && DeliversInFull(e.request.command, e.conduct.reply.value) ==>
          SelfDelimiting(e))
  }

  /** Serving one message of the stream takes the reader to the next. */
  ghost predicate OneMessage(parse: HeadParser, s: string, e: Exchange, after: string, calm: bool)
    requires ReadsHeads(parse)
  {
    && Messages(parse, s) != []
    && e.request == Messages(parse, s)[0].request
    && (FramedAlike(e.request.headers) ==> Matches(e, Messages(parse, s)[0], calm))
    && (FramedAlike(e.request.headers) && e.ending.Forwarded? ==>
          Messages(parse, s)[1..] == Messages(parse, after))
  }

  /** The connection after a response, as far as `_proxy` decides it. */
  lemma LastResponse(e: Exchange, closing: bool, clientGone: bool)
    requires e.response.Some? ==> (AdvertisesClose(e.response.value) <==> closing)
    requires !e.ending.Forwarded? && !e.ending.Crashed? ==> closing
    requires e.ending.Crashed? ==> e.response == None
    requires e.ending.Forwarded? ==>
      && e.conduct.reply.Some? && e.response.Some?
      && (closing <==> e.request.close || MustClose(e.request.command, e.conduct.reply.value))
      && IsAnswer(e.conduct.reply.value, closing, e.response.value)
      && (!clientGone ==> e.response.value.body == e.conduct.reply.value.body)
    ensures StaysOpen(e) <==> !closing && !e.ending.Crashed?
    ensures KeptExactly(e) && (StaysOpen(e) ==> Kept(e, clientGone))
  {
    hide IsAnswer, AdvertisesClose, MustClose, DeliversInFull, ResponseLength;
    if e.ending.Forwarded? {
      WhenAnswerMustClose(e.request.command, e.conduct.reply.value);
      if !closing && e.response.value.body == e.conduct.reply.value.body
         && DeliversInFull(e.request.command, e.conduct.reply.value) {
        KeptResponseIsDelimited(e.request.command, e.conduct.reply.value, e.response.value);
      }
    }
  }

  /** What `_proxy` tells of the bytes it took and sent. */
  ghost predicate Proxied(e: Exchange, rest: string, after: string, calm: bool) {
    var intake := IntakeOf(e.request.headers);
    && (e.ending.Forwarded? ==>
          && AfterBody(intake, rest) == Some(after)
          && (forall field :: Values(e.sentHead, field)
                == HeadValues(e.request.headers, e.conduct.name, intake.TakeChunks?, field))
          && AfterBody(intake, e.sentBody) == Some([])
          && Payload(intake, e.sentBody) == Payload(intake, rest))
    && (calm && Healthy(e.conduct) ==> (e.ending.Forwarded? <==> AfterBody(intake, rest).Some?))
  }

  /** The message that was served. */
  lemma MessageServed(parse: HeadParser, s: string, e: Exchange, after: string, calm: bool)
    requires ReadsHeads(parse) && parse(s).Some? && e.request == parse(s).value.request
    requires Proxied(e, s[parse(s).value.size..], after, calm)
    ensures OneMessage(parse, s, e, after, calm)
  {
    hide AfterBody, Payload, IntakeOf, RfcFraming, Values, HeadValues;
    var headers, rest := e.request.headers, s[parse(s).value.size..];
    if FramedAlike(headers) {
      IntakeFollowsRfc(headers);
      if e.ending.Forwarded? {
        ForwardedInStep(headers, e.conduct.name, e.sentHead, rest, after, e.sentBody);
      }
    }
  }

  lemma InStepOneMore(exchanges: seq<Exchange>, e: Exchange, messages: seq<Message>, calm: bool)
    requires InStep(exchanges, messages, calm) && |exchanges| < |messages|
    requires Matches(e, messages[|exchanges|], calm)
    ensures InStep(exchanges + [e], messages, calm)
  {
    hide Matches;
  }

  lemma FramedAlikeOneMore(exchanges: seq<Exchange>, e: Exchange)
    ensures AllFramedAlike(exchanges + [e])
      <==> AllFramedAlike(exchanges) && FramedAlike(e.request.headers)
  {
    hide FramedAlike;
    assert (exchanges + [e])[|exchanges|] == e;
    assert forall i | 0 <= i < |exchanges| :: (exchanges + [e])[i] == exchanges[i];
  }

  /** The next request of the connection is the next message of the stream. */
  lemma StreamOneMore(parse: HeadParser, exchanges: seq<Exchange>, all: seq<Message>, s: string,
                      e: Exchange, after: string, calm: bool)
    requires ReadsHeads(parse) && OneMessage(parse, s, e, after, calm) && KeptExactly(e)
    requires forall n | 0 <= n <= |exchanges| :: InStepUpTo(exchanges, all, n, calm)
    requires AllFramedAlike(exchanges) ==>
      |exchanges| <= |all| && all[|exchanges|..] == Messages(parse, s)
    ensures forall n | 0 <= n <= |exchanges| + 1 :: InStepUpTo(exchanges + [e], all, n, calm)
    ensures AllFramedAlike(exchanges + [e]) && StaysOpen(e) ==>
      |exchanges| < |all| && all[|exchanges| + 1..] == Messages(parse, after)
  {
    hide Messages, Matches, FramedAlike, InStep, AllFramedAlike, StaysOpen;
    var k, more := |exchanges|, exchanges + [e];
    assert exchanges[..k] == exchanges && more[..k + 1] == more && more[k] == e;
    assert InStepUpTo(exchanges, all, k, calm);
    if AllFramedAlike(exchanges) {
      assert all[k] == Messages(parse, s)[0];
      assert all[k..][1..] == all[k + 1..];
      FramedAlikeOneMore(exchanges, e);
      if FramedAlike(e.request.headers) {
        InStepOneMore(exchanges, e, all, calm);
      }
    } else {
      FramedAlikeOneMore(exchanges, e);
    }
    forall n | 0 <= n <= k + 1 ensures InStepUpTo(more, all, n, calm) {
      if n <= k {
        assert InStepUpTo(exchanges, all, n, calm);
        assert more[..n] == exchanges[..n];
      }
    }
  }

  /** Nothing about a message or the backend it meets stands in the way of the next. */
  ghost predicate Smooth(m: Message, c: Conduct) {
    && FramedAlike(m.request.headers) && m.payload.Some? && !m.request.close
    && c.reachable && c.reply.Some? && !c.faulty && HasAnEnd(m.request.command, c.reply.value)
  }

  /** If nothing stands in the way, every message of the stream is served and reaches its backend. */
  lemma SmoothRunServesAll(exchanges: seq<Exchange>, all: seq<Message>, conduct: nat -> Conduct)
    requires forall n | 0 <= n <= |exchanges| :: InStepUpTo(exchanges, all, n, true)
    requires forall i | 0 <= i < |exchanges| ::
      exchanges[i].conduct == conduct(i) && KeptExactly(exchanges[i])
    requires AllFramedAlike(exchanges) && StillOpen(exchanges) ==> |exchanges| == |all|
    requires forall i | 0 <= i < |all| :: Smooth(all[i], conduct(i))
    ensures |exchanges| == |all|
    ensures forall i | 0 <= i < |all| :: exchanges[i].ending.Forwarded? && Delivered(exchanges[i], all[i])
  {
    hide Delivered, FramedAlike, HasAnEnd, AllFramedAlike;
    SmoothRunIsFramedAlike(exchanges, all, conduct, |exchanges|);
    assert exchanges[..|exchanges|] == exchanges;
    assert InStepUpTo(exchanges, all, |exchanges|, true);
    forall i | 0 <= i < |exchanges|
      ensures exchanges[i].ending.Forwarded? && Delivered(exchanges[i], all[i])
      ensures StaysOpen(exchanges[i])
    {
      assert Matches(exchanges[i], all[i], true) && Smooth(all[i], conduct(i));
      assert KeptExactly(exchanges[i]);
    }
  }

  lemma {:induction false} SmoothRunIsFramedAlike(exchanges: seq<Exchange>, all: seq<Message>,
                                                  conduct: nat -> Conduct, n: nat)
    requires n <= |exchanges|
    requires forall k | 0 <= k <= |exchanges| :: InStepUpTo(exchanges, all, k, true)
    requires forall i | 0 <= i < |all| :: Smooth(all[i], conduct(i))
    ensures AllFramedAlike(exchanges[..n])
  {
    hide FramedAlike, Matches, HasAnEnd;
    if n > 0 {
      SmoothRunIsFramedAlike(exchanges, all, conduct, n - 1);
      assert InStepUpTo(exchanges, all, n - 1, true);
      assert Smooth(all[n - 1], conduct(n - 1));
      assert exchanges[..n] == exchanges[..n - 1] + [exchanges[n - 1]];
      FramedAlikeOneMore(exchanges[..n - 1], exchanges[n - 1]);
    }
  }

  class Connection {
    const handler: Handler
    var exchanges: seq<Exchange>

    constructor (handler: Handler)
      ensures this.handler == handler && exchanges == []
    {
      this.handler, exchanges := handler, [];
    }

    ghost predicate Valid()
      reads this, handler, handler.rfile
    {
      && handler.rfile.Valid()
      && this as object != handler && this as object != handler.rfile
      && handler as object != handler.rfile
    }

    /** The client's side neither breaks nor cuts reads short. */
    ghost predicate Calm() {
      !handler.rfile.short && !handler.rfile.faulty && !handler.clientGone
    }

    /** Hand a request to `_proxy`, with the backend it meets. */
    method Dispatch(request: Request, conduct: Conduct) returns (e: Exchange)
      requires Valid() && handler.closeConnection == request.close
      modifies handler, handler.rfile
      ensures Valid() && old(handler.rfile.pos) <= handler.rfile.pos
      ensures e.request == request && e.conduct == conduct
      ensures Proxied(e, old(handler.rfile.Rest()), handler.rfile.Rest(), Calm())
      ensures StaysOpen(e) <==> !handler.closeConnection && !e.ending.Crashed?
      ensures KeptExactly(e) && (StaysOpen(e) ==> Kept(e, handler.clientGone))
    {
      hide Kept, KeptExactly, StaysOpen, AfterBody, Payload, IntakeOf, MustClose, IsAnswer,
           HeadValues, AdvertisesClose, Values;
      var backend := new Backend(conduct.reachable, conduct.reply, conduct.faulty);
      var ending, response, _ := handler.Proxy(request, conduct.name, backend);
      e := Exchange(request, conduct, ending, response, backend.head, backend.wire.out);
      LastResponse(e, handler.closeConnection, handler.clientGone);
    }

    /** Read one head and serve its request. */
    method ServeOne(parse: HeadParser, conduct: Conduct) returns (open: bool)
      requires ReadsHeads(parse) && Valid()
      modifies this, handler, handler.rfile
      ensures Valid() && (open ==> old(handler.rfile.pos) < handler.rfile.pos)
      ensures parse(old(handler.rfile.Rest())).None? ==>
        !open && exchanges == old(exchanges) && handler.rfile.Rest() == old(handler.rfile.Rest())
      ensures parse(old(handler.rfile.Rest())).Some? ==>
        && |exchanges| == |old(exchanges)| + 1
        && exchanges == old(exchanges) + [exchanges[|old(exchanges)|]]
        && OneMessage(parse, old(handler.rfile.Rest()), exchanges[|old(exchanges)|],
                      handler.rfile.Rest(), Calm())
        && exchanges[|old(exchanges)|].conduct == conduct
        && (open <==> StaysOpen(exchanges[|old(exchanges)|]))
        && KeptExactly(exchanges[|old(exchanges)|])
        && (open ==> Kept(exchanges[|old(exchanges)|], handler.clientGone))
    {
      hide OneMessage, Kept, KeptExactly, StaysOpen, Messages, Proxied;
      ghost var s := handler.rfile.Rest();
      var rfile := handler.rfile;
      var head := parse(rfile.input[rfile.pos..]);
      if head.None? {
        return false;
      }
      rfile.pos := rfile.pos + head.value.size;
      assert rfile.Rest() == s[head.value.size..];
      handler.closeConnection := head.value.request.close;
      var e := Dispatch(head.value.request, conduct);
      exchanges := exchanges + [e];
      open := !handler.closeConnection && !e.ending.Crashed?;
      MessageServed(parse, s, e, rfile.Rest(), Calm());
    }

    /** The request loop of the HTTP library around `_proxy`. Request `i` of the connection meets the
        backend `conduct(i)`. */
    method Serve(parse: HeadParser, conduct: nat -> Conduct)
      requires ReadsHeads(parse) && Valid() && exchanges == []
      modifies this, handler, handler.rfile
      ensures forall i | 0 <= i < |exchanges| :: exchanges[i].conduct == conduct(i)
      // As far as the served requests are framed alike by the proxy and the RFC, they are the
      // stream's own messages, in order and none skipped; a later one takes nothing of that back.
      ensures forall n | 0 <= n <= |exchanges| ::
        InStepUpTo(exchanges, Messages(parse, old(handler.rfile.Rest())), n, Calm())
      // Serving only ends with the connection or with the stream.
      ensures AllFramedAlike(exchanges) && StillOpen(exchanges) ==>
        |exchanges| == |Messages(parse, old(handler.rfile.Rest()))|
      // A response leaves the connection open exactly when it can, and then shows its own end.
      ensures forall i | 0 <= i < |exchanges| :: KeptExactly(exchanges[i])
      ensures forall i | 0 <= i < |exchanges| - 1 :: Kept(exchanges[i], handler.clientGone)
      // So if no message, no backend and not the client gives a reason to stop, every message is
      // served and reaches its backend.
      ensures var all := Messages(parse, old(handler.rfile.Rest()));
        !handler.rfile.short && !handler.rfile.faulty && !handler.clientGone
        && (forall i | 0 <= i < |all| ::
              && FramedAlike(all[i].request.headers) && all[i].payload.Some?
              && !all[i].request.close
              && conduct(i).reachable && conduct(i).reply.Some? && !conduct(i).faulty
              && HasAnEnd(all[i].request.command, conduct(i).reply.value)) ==>
          && |exchanges| == |all|
          && forall i | 0 <= i < |all| ::
               exchanges[i].ending.Forwarded? && Delivered(exchanges[i], all[i])
    {
      hide Messages, Matches, FramedAlike, Kept, AllFramedAlike, KeptExactly, StaysOpen, HasAnEnd,
           Delivered;
      ghost var all := Messages(parse, handler.rfile.Rest());
      NothingServed(all, Calm());
      assert all[0..] == all;
      var open := true;
      while open
        invariant Valid()
        invariant forall n | 0 <= n <= |exchanges| :: InStepUpTo(exchanges, all, n, Calm())
        invariant open ==> StillOpen(exchanges)
        invariant StillOpen(exchanges) && AllFramedAlike(exchanges) ==>
          |exchanges| <= |all| && all[|exchanges|..] == Messages(parse, handler.rfile.Rest())
        invariant !open && StillOpen(exchanges) ==> parse(handler.rfile.Rest()).None?
        invariant forall i | 0 <= i < |exchanges| ::
          exchanges[i].conduct == conduct(i) && KeptExactly(exchanges[i])
        invariant forall i | 0 <= i < |exchanges| ::
          (open || i < |exchanges| - 1) ==> Kept(exchanges[i], handler.clientGone)
        decreases open, |handler.rfile.input| - handler.rfile.pos
      {
        ghost var s, before := handler.rfile.Rest(), exchanges;
        open := ServeOne(parse, conduct(|exchanges|));
        if exchanges != before {
          StreamOneMore(parse, before, all, s, exchanges[|before|], handler.rfile.Rest(), Calm());
        }
      }
      NoHeadNoMessage(parse, handler.rfile.Rest());
      if Calm() && forall i | 0 <= i < |all| :: Smooth(all[i], conduct(i)) {
        SmoothRunServesAll(exchanges, all, conduct);
      }
    }
  }

  lemma NothingServed(all: seq<Message>, calm: bool)
    ensures InStepUpTo([], all, 0, calm) && AllFramedAlike([])
  {
  }

  lemma NoHeadNoMessage(parse: HeadParser, s: string)
    requires ReadsHeads(parse)
    ensures parse(s).None? ==> Messages(parse, s) == []
  {
  }

  // ----- what these promises come to

  lemma WhenFramedAlike(headers: Headers)
    ensures FramedAlike(headers) <==>
      !RfcFraming(headers).Invalid? && IntakeOf(headers) == Intended(RfcFraming(headers))
  {
    hide RfcFraming, IntakeOf;
    if !RfcFraming(headers).Invalid? {
      IntakeFollowsRfc(headers);
    }
  }

  /** A delivered message: with a chunked head its body decodes, to the last byte, to the client's
      payload, otherwise it is that payload. */
  lemma WhatWasDelivered(e: Exchange, m: Message)
    requires Delivered(e, m)
    ensures !RfcFraming(e.sentHead).Invalid? && m.payload.Some?
    ensures RfcFraming(e.sentHead).Chunked? ==>
      && Decode(e.sentBody) == Done(Decode(e.sentBody).chunks, [])
      && m.payload.value == Concat(Decode(e.sentBody).chunks)
    ensures !RfcFraming(e.sentHead).Chunked? ==> m.payload.value == e.sentBody
    ensures RfcFraming(e.sentHead).Fixed? ==> |e.sentBody| == RfcFraming(e.sentHead).length
    ensures RfcFraming(e.sentHead).NoBody? ==> e.sentBody == []
  {
    hide RfcFraming, Decode;
  }

  /** The first `n` exchanges of a connection, framed alike, and the request after them. */
  lemma WhatInStepSays(exchanges: seq<Exchange>, messages: seq<Message>, n: nat, calm: bool)
    requires n <= |exchanges| && InStepUpTo(exchanges, messages, n, calm)
    requires forall i | 0 <= i < n :: FramedAlike(exchanges[i].request.headers)
    ensures n <= |messages| && (n < |exchanges| ==> n < |messages|)
    ensures forall i | 0 <= i <= n && i < |exchanges| :: exchanges[i].request == messages[i].request
    ensures forall i | 0 <= i < n ::
      exchanges[i].ending.Forwarded? ==> Delivered(exchanges[i], messages[i])
  {
    hide FramedAlike, Delivered;
    assert AllFramedAlike(exchanges[..n]);
    forall i | 0 <= i < n
      ensures exchanges[i].request == messages[i].request
      ensures exchanges[i].ending.Forwarded? ==> Delivered(exchanges[i], messages[i])
    {
      assert Matches(exchanges[..n][i], messages[i], calm);
    }
  }

  /** A kept response announces no close; and if the backend delivered it in full to a client that is
      there, it has no body or a Content-Length that is the body's. */
  lemma WhatKeptSays(e: Exchange, clientGone: bool)
    requires Kept(e, clientGone)
    ensures e.response.Some? && Values(e.response.value.headers, "connection") != ["close"]
    ensures !clientGone && DeliversInFull(e.request.command, e.conduct.reply.value) ==>
      var response := e.response.value;
      || AgreedLength(Values(response.headers, "content-length")) == Some(|response.body|)
      || (&& response.body == []
          && (e.request.command == "HEAD" || response.status == 204 || response.status == 304
              || 100 <= response.status <= 199))
  {
    hide AgreedLength, Values;
  }
}
