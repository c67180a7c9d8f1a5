/**
 A client's connection: the request is read in pieces and then routed. The theorem joins reading,
 routing, formatting and framing: what a client writes reaches a backend as an object describing it.
 */
module ClientConnection {
  import opened Text
  import opened Json
  import opened JsonReader
  import opened Endpoints
  import opened Http
  import opened Frames
  import opened RequestFormatter
  import opened Validation
  import opened Gateway
  import Tokens
  import HttpParser
  import HttpWriting

  datatype Handled = Closed | Malformed | Crashed | Routed(request: HttpRequest, answer: Answer)

  /**
   The whole handling up to the answer; the reads return `chunks`. A request is routed if and only if
   the first read holds its whole head and everything read in one piece would be understood. It may be
   incomplete, when the client stopped sending: it is then routed all the same, without a body.
   */
  method HandleClientConnection(gateway: Gateway, fp: Doubles, chunks: seq<string>, now: int, ivs: Tokens.Ivs, lib: Library,
                                orders: HttpRequest -> Orders)
    returns (h: Handled)
    requires gateway.Valid() && chunks != []
    modifies gateway.engine`revoked, gateway.formatter
    ensures gateway.Valid()
    ensures h == Closed <==> chunks[0] == ""
    ensures h == Malformed <==> chunks[0] != "" && HttpParser.ParseInto(chunks[0], Blank).Bad?
    ensures h == Crashed <==> chunks[0] != "" && HttpParser.ParseInto(chunks[0], Blank) == HttpParser.Raised
    ensures h.Routed? <==>
              HttpParser.Find(chunks[0], "\r\n\r\n").Some? && HttpParser.ParseInto(HttpParser.Concat(chunks), Blank).Good?
    ensures h.Routed? && h.request.complete ==>
              HttpParser.ParseInto(HttpParser.Concat(chunks), Blank)
              == HttpParser.Good(h.request.(raw := HttpParser.Concat(chunks)))
    ensures h.Routed? && !h.request.complete ==>
              h.request.body == ""
              && exists n :: 1 <= n <= |chunks| && (n == |chunks| || chunks[n] == "")
                             && HttpParser.ParseInto(HttpParser.Concat(chunks[..n]), Blank) == HttpParser.Good(h.request)
    ensures h.Routed? && h.answer.ToBackend? ==>
              var d := old(gateway.Decision(fp, h.request, now, lib));
              && d.Passing?
              && h.answer.fd == gateway.server.listener.GetBackendFileDescriptor(d.endpoint.backend)
              && h.answer == Sent(h.answer.fd, old(gateway.formatter.nextId),
                                  PayloadText(fp, d.admitted, d.endpoint.backend, orders(d.admitted)))
    ensures h.Routed? && old(gateway.Decision(fp, h.request, now, lib)).Answered? ==>
              h.answer == old(gateway.Decision(fp, h.request, now, lib)).answer
  {
    hide *;
    if chunks[0] == "" {
      NothingIsFound();
      return Closed;
    }
    var parsed, used := HttpParser.ReceiveRequest(chunks);
    match parsed {
      case Bad(_) => return Malformed;
      case Raised => return Crashed;
      case Good(request) =>
        if !request.complete {
          IncompleteHasNoBody(HttpParser.Concat(chunks[..used]));
        }
        ghost var d, id := gateway.Decision(fp, request, now, lib), gateway.formatter.nextId;
        var answer := gateway.RouteRequest(fp, request, now, ivs, lib, orders);
        if d.Passing? {
          SentTo(gateway.server.listener.GetBackendFileDescriptor(d.endpoint.backend), id,
                 PayloadText(fp, d.admitted, d.endpoint.backend, orders(d.admitted)));
        }
        return Routed(request, answer);
    }
  }

  lemma SentTo(fd: int, id: int, payload: Option<string>)
    ensures Sent(fd, id, payload).ToBackend? ==> Sent(fd, id, payload).fd == fd
  {
  }

  lemma NothingIsFound()
    ensures HttpParser.Find("", "\r\n\r\n") == None
  {
  }

  /** A request that stays incomplete has no body. */
  lemma IncompleteHasNoBody(raw: string)
    requires HttpParser.ParseInto(raw, Blank).Good? && !HttpParser.ParseInto(raw, Blank).request.complete
    ensures HttpParser.ParseInto(raw, Blank).request.body == ""
  {
    HttpParser.GoodParse(raw, Blank);
    hide HttpParser.Find, HttpParser.ParseHead, HttpParser.ParseInto;
    var i := HttpParser.Find(raw, "\r\n\r\n").value;
    HttpParser.HeadKeeps(raw[..i], HttpParser.Fresh(raw, Blank));
  }

  /** The client announced the length of its body, if it has one. */
  predicate HasLength(o: HttpWriting.Outgoing) {
    && o.headers != [] && |o.body| < 0x1_0000_0000
    && var headers := HttpWriting.HeaderMap(o);
       if "content-length" in headers then headers["content-length"] == Decimal(|o.body|) else o.body == ""
  }

  /** The request as the client meant it, with the path parameters the lookup found. */
  function AsMeant(o: HttpWriting.Outgoing, parameters: map<string, string>): HttpRequest
    requires HttpWriting.Sendable(o)
  {
    HttpWriting.Expected(o, |o.body|).(pathParameters := parameters)
  }

  /** What is read from a written request, up to the raw copy. */
  lemma WrittenIsRead(o: HttpWriting.Outgoing, request: HttpRequest)
    requires HttpWriting.Sendable(o) && HasLength(o)
    requires var raw := HttpWriting.Rendered(o);
             HttpParser.ParseInto(raw, Blank) == HttpParser.Good(request.(raw := raw))
    ensures request.(raw := HttpWriting.Rendered(o)) == HttpWriting.Expected(o, |o.body|)
  {
    hide HttpParser.ParseInto, HttpWriting.Sendable, HttpWriting.HeaderMap, HttpWriting.Rendered, HttpWriting.Expected, Decimal;
    HttpWriting.LengthOf(HttpWriting.HeaderMap(o), o.body);
    HttpWriting.RequestIsUnderstood(o);
  }

  /** A request that is passed on is the one that was routed, at most with the user recorded in its headers. */
  lemma AdmittedIs(fp: Doubles, found: Option<Endpoint>, parameters: map<string, string>, g: Guard,
                   request: HttpRequest, now: int, lib: Library)
    requires Decide(fp, found, parameters, g, request, now, lib).Passing?
    ensures var admitted := Decide(fp, found, parameters, g, request, now, lib).admitted;
            var routed := request.(pathParameters := parameters);
            || admitted == routed
            || (USER_HEADER in admitted.headers
                && admitted == routed.(headers := routed.headers[USER_HEADER := admitted.headers[USER_HEADER]]))
  {
    hide UserOf, AllErrors, IsRefresh;
  }

  lemma SameMeaning(o: HttpWriting.Outgoing, request: HttpRequest, parameters: map<string, string>)
    requires HttpWriting.Sendable(o)
    requires request.(raw := HttpWriting.Rendered(o)) == HttpWriting.Expected(o, |o.body|)
    ensures request.body == o.body
    ensures var r, s := request.(pathParameters := parameters), AsMeant(o, parameters);
            && r.verb == s.verb && r.path == s.path && r.pathParameters == s.pathParameters && r.query == s.query
            && r.headers == s.headers && r.body == s.body
  {
    hide HttpWriting.Sendable, HttpWriting.QueryOf, HttpWriting.HeaderMap, HttpWriting.Rendered, HttpWriting.SetAll;
    assert o.body[..|o.body|] == o.body;
    var e := HttpWriting.Expected(o, |o.body|);
    assert e.verb == request.verb && e.path == request.path && e.query == request.query && e.headers == request.headers;
    assert e.body == request.body;
  }

  /**
   End to end: a written request, cut into pieces anyhow but inside its head, that is passed on reaches
   its backend, whatever bytes follow it there, as a frame whose payload the parser reads as an object
   describing exactly what the client meant; and it was permitted.
   */
  lemma WrittenRequestReachesBackend(fp: Doubles, o: HttpWriting.Outgoing, request: HttpRequest, raw: string,
                                     found: Option<Endpoint>, parameters: map<string, string>, g: Guard, now: int,
                                     lib: Library, orders: Orders, id: int, more: string)
    returns (v: Value)
    requires HttpWriting.Sendable(o) && HttpWriting.Rendered(o) == raw && HasLength(o)
    requires HttpParser.ParseInto(raw, Blank) == HttpParser.Good(request.(raw := raw))
    requires Decide(fp, found, parameters, g, request, now, lib).Passing?
    requires var d := Decide(fp, found, parameters, g, request, now, lib);
             && OrdersOf(orders, d.admitted) && Carriable(fp, o.body) && IsUint32(id)
             && (PayloadText(fp, d.admitted, d.endpoint.backend, orders).Some? ==>
                   |PayloadText(fp, d.admitted, d.endpoint.backend, orders).value| <= MAX_PAYLOAD_SIZE)
    ensures var d := Decide(fp, found, parameters, g, request, now, lib);
            var payload := PayloadText(fp, d.admitted, d.endpoint.backend, orders);
            && payload.Some?
            && (var stream := Encode(RequestFrame(id, payload.value)) + more;
                HasComplete(stream) && Decode(stream).kind == 2 && Decode(stream).id == id
                && ReadText(fp, Decode(stream).payload) == Ok(v, ""))
            && Describes(fp, v, AsMeant(o, parameters), d.endpoint.backend)
            && (d.endpoint.requiresAuth ==>
                  UserOf(g, request.(pathParameters := parameters), d.endpoint.backend, now).Some?)
            && AllMeet(fp, lib, d.admitted, d.endpoint.schemas)
  {
    hide *;
    var d := Decide(fp, found, parameters, g, request, now, lib);
    var backend := d.endpoint.backend;
    WrittenIsRead(o, request);
    AdmittedIs(fp, found, parameters, g, request, now, lib);
    PassingIsPermitted(fp, found, parameters, g, request, now, lib, d.endpoint);
    var routed := request.(pathParameters := parameters);
    SameMeaning(o, request, parameters);
    assert d.admitted.body == o.body;
    var _ := ForwardingPreservesMeaning(fp, d.admitted, backend, orders);
    v := RequestArrives(fp, d.admitted, backend, orders, id, more);
    if d.admitted != routed {
      UserIsNotForwarded(fp, v, routed, backend, d.admitted.headers[USER_HEADER]);
    }
    DescribedAlike(fp, v, routed, AsMeant(o, parameters), backend);
  }
}
