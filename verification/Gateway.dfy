/**
 From a client's request to a backend: lookup, authentication, validation and forwarding in one run
 of `RouteRequest`, during which nothing else happens up to the first write to the backend.
 */
module Gateway {
  import opened Text
  import opened Json
  import opened JsonReader
  import opened JsonParsing
  import opened JsonRoundTrip
  import opened Endpoints
  import opened VectorIndex
  import opened RoutingTable
  import opened Backends
  import opened GatewayServer
  import opened Http
  import opened Frames
  import opened RequestFormatter
  import opened Validation
  import opened TokenPayload
  import opened Tokens
  import TokenEngine
  import TokenRuns

  datatype Answer =
    | NotFound
    | Unauthorized
    | Invalid(errors: seq<ValidationError>)
    | NoRefreshToken
    | RefreshRefused
    | Refreshed(pair: Pair)
    | NotAvailable
    | ToBackend(fd: int, frame: Frame)
    | Raised

  // ---------------------------------------------------------------- authentication

  function BearerToken(r: HttpRequest): Option<string> {
    if "authorization" in r.headers && |r.headers["authorization"]| >= 7 && r.headers["authorization"][..7] == "Bearer "
    then Some(r.headers["authorization"][7..]) else None
  }

  /** The token engine at one moment. Without a key it is not ready: the gateway runs, and refuses every protected endpoint. */
  datatype Guard = Guard(ready: bool, cfg: Config, revoked: set<string>)

  function Accepts(g: Guard, kind: TokenType, token: string, backend: string, now: int): Option<string> {
    if g.ready then Validate(g.cfg.aead, g.revoked, kind, token, backend, now) else None
  }

  /** The user a request is authenticated as for a backend, if any. */
  function UserOf(g: Guard, r: HttpRequest, backend: string, now: int): Option<string> {
    match BearerToken(r)
    case None => None
    case Some(token) => Accepts(g, Access, token, backend, now)
  }

  /** The request as it goes on: an endpoint that asks for it lets only authenticated users pass. */
  function Admitted(g: Guard, e: Endpoint, r: HttpRequest, now: int): Option<HttpRequest> {
    if !e.requiresAuth then Some(r)
    else
      match UserOf(g, r, e.backend, now)
      case None => None
      case Some(user) => Some(r.(headers := r.headers[USER_HEADER := user]))
  }

  /** The path parameters a lookup leaves in an empty map. */
  ghost function PathParameters(es: seq<Endpoint>, ix: Index<string>, verb: HttpMethod, path: string): map<string, string>
    requires Indexed(KeysOf(es), ix) && AllShaped(es)
  {
    if RouteKey(verb, path) in ix then map[]
    else
      match Found(es, ix, verb, path)
      case None => map[]
      case Some(e) => if |Segments(path)| == |e.segments| then Bindings(e, Segments(path), |e.segments|) else map[]
  }

  predicate IsRefresh(r: HttpRequest) {
    r.path == "/auth/refresh" && r.verb == Post
  }

  /** The refresh token in a body; `None` inside where there is none, outside where parsing throws. */
  function RefreshTokenIn(fp: Doubles, body: string): Option<string> {
    match ReadText(fp, body)
    case Throw => None
    case Fail(_, _) => Some("")
    case Ok(v, _) => Some(if v.Object? && Has(v, "refresh_token") then TextOf(MemberOf(v, "refresh_token")) else "")
  }

  method ReadRefreshToken(fp: Doubles, body: string) returns (token: Option<string>)
    ensures token == RefreshTokenIn(fp, body)
  {
    hide ReadText;
    var parser := new JsonParser(fp);
    var verdict, v := parser.Parse(body);
    match verdict {
      case Thrown => token := None;
      case Rejected => token := Some("");
      case Accepted =>
        token := Some(if v.Object? && Has(v, "refresh_token") then TextOf(MemberOf(v, "refresh_token")) else "");
    }
  }

  /** The answer of the refresh route, and the revoked set after it. */
  predicate Rotates(fp: Doubles, g: Guard, revoked: set<string>, body: string, backend: string, now: int, ivs: Ivs, answer: Answer) {
    match RefreshTokenIn(fp, body)
    case None => answer == Raised && revoked == g.revoked
    case Some(token) =>
      var pair := if g.ready then Rotate(g.cfg, g.revoked, token, backend, now, ivs) else None;
      var accepted := token != "" && Accepts(g, TokenType.Refresh, token, backend, now).Some?;
      && answer == (if token == "" then NoRefreshToken else if pair.Some? then Refreshed(pair.value) else RefreshRefused)
      && revoked == if accepted then g.revoked + {token} else g.revoked
  }

  // ---------------------------------------------------------------- the decision

  /** What is decided before anything is sent: an answer, a rotation, or forwarding of the admitted request. */
  datatype Decision = Answered(answer: Answer) | Rotating(endpoint: Endpoint) | Passing(endpoint: Endpoint, admitted: HttpRequest)

  function Decide(fp: Doubles, found: Option<Endpoint>, parameters: map<string, string>, g: Guard,
                  request: HttpRequest, now: int, lib: Library): Decision
  {
    match found
    case None => Answered(NotFound)
    case Some(e) =>
      match Admitted(g, e, request.(pathParameters := parameters), now)
      case None => Answered(Unauthorized)
      case Some(admitted) =>
        match AllErrors(fp, lib, admitted, e.schemas)
        case None => Answered(Raised)
        case Some(errors) =>
          if errors != [] then Answered(Invalid(errors))
          else if IsRefresh(request) then Rotating(e) else Passing(e, admitted)
  }

  /**
   Exactly the permitted requests are passed on: the lookup found the endpoint, a user was
   authenticated for its backend if it asks for one, every schema is met, and it is not the
   refresh route. (A body on which the parser throws is never passed on.)
   */
  lemma PassingIsPermitted(fp: Doubles, found: Option<Endpoint>, parameters: map<string, string>, g: Guard,
                           request: HttpRequest, now: int, lib: Library, e: Endpoint)
    ensures var d := Decide(fp, found, parameters, g, request, now, lib);
            var routed := request.(pathParameters := parameters);
            var admitted := Admitted(g, e, routed, now);
            && (d.Passing? && d.endpoint == e <==>
                  && found == Some(e) && !IsRefresh(request)
                  && (e.requiresAuth ==> UserOf(g, routed, e.backend, now).Some?)
                  && AllErrors(fp, lib, admitted.value, e.schemas).Some? && AllMeet(fp, lib, admitted.value, e.schemas))
            && (d.Passing? && d.endpoint == e ==> d.admitted == admitted.value)
  {
    hide UserOf, AllErrors, AllMeet, IsRefresh;
    var admitted := Admitted(g, e, request.(pathParameters := parameters), now);
    if admitted.Some? && AllErrors(fp, lib, admitted.value, e.schemas).Some? {
      ValidationIsExact(fp, lib, admitted.value, e.schemas);
    }
  }

  /**
   A protected endpoint is reached only with a token that was issued: in a fair run of the token engine,
   a request that is admitted to it carries, as its recorded user, someone for whom a pair was
   generated by a login earlier in the run, for the server name of that endpoint's backend.
   */
  lemma ProtectedNeedsLogin(g: Guard, events: seq<TokenRuns.Event>, e: Endpoint, r: HttpRequest, now: int) returns (i: nat)
    requires Works(g.cfg.aead) && TokenRuns.FairRun(g.cfg, TokenRuns.Start, events) && e.requiresAuth
    requires g.revoked == TokenRuns.Run(g.cfg, TokenRuns.Start, events).revoked
    requires BearerToken(r).Some? ==> TokenRuns.Unforged(g.cfg, TokenRuns.Run(g.cfg, TokenRuns.Start, events), BearerToken(r).value)
    requires Admitted(g, e, r, now).Some?
    ensures var admitted := Admitted(g, e, r, now).value;
            && i < |events| && events[i].Login? && events[i].server == e.backend
            && USER_HEADER in admitted.headers && admitted.headers[USER_HEADER] == events[i].user
  {
    var s := TokenRuns.Run(g.cfg, TokenRuns.Start, events);
    var token := BearerToken(r).value;
    var user := Validate(g.cfg.aead, s.revoked, Access, token, e.backend, now).value;
    hide Validate, TokenRuns.Unforged, TokenRuns.Fair, TokenRuns.Next, TokenRuns.Honest;
    TokenRuns.RunHonest(g.cfg, events);
    var k := TokenRuns.AcceptedWasIssued(g.cfg, s, Access, token, e.backend, now);
    TokenRuns.LoginsAreEvents(g.cfg, events, e.backend, user);
    i :| 0 <= i < |events| && events[i].Login? && events[i].server == e.backend && events[i].user == user;
  }

  // ---------------------------------------------------------------- the gateway

  /** The frame for a payload, on its way; no payload where parsing the body threw. */
  function Sent(fd: int, id: int, payload: Option<string>): Answer {
    match payload
    case None => Raised
    case Some(text) => ToBackend(fd, Frame(REQUEST, id, |text| % 0x1_0000_0000, text))
  }

  class Gateway {
    const server: Server
    const engine: TokenEngine.Engine
    const formatter: Formatter

    ghost predicate Valid()
      reads this, server, server.listener, server.table, engine, formatter
    {
      server.Valid() && IsUint32(formatter.nextId)
    }

    function GuardNow(): Guard
      reads this, engine
    {
      Guard(engine.initialized, engine.cfg, engine.revoked)
    }

    constructor (server: Server, engine: TokenEngine.Engine, formatter: Formatter)
      requires server.Valid() && IsUint32(formatter.nextId)
      ensures Valid() && this.server == server && this.engine == engine && this.formatter == formatter
    {
      this.server, this.engine, this.formatter := server, engine, formatter;
    }

    /** The admitted request, or none. */
    method Authenticate(e: Endpoint, r: HttpRequest, now: int) returns (admitted: Option<HttpRequest>)
      ensures admitted == Admitted(GuardNow(), e, r, now)
    {
      hide Validate;
      admitted := Some(r);
      if e.requiresAuth {
        admitted := None;
        if "authorization" in r.headers {
          var header := r.headers["authorization"];
          if |header| >= 7 && header[..7] == "Bearer " {
            var user := engine.ValidateToken(Access, header[7..], e.backend, now);
            if user.Some? {
              admitted := Some(r.(headers := r.headers[USER_HEADER := user.value]));
            }
          }
        }
      }
    }

    /** The refresh route: the presented token is rotated for the endpoint's backend. */
    method Refresh(fp: Doubles, r: HttpRequest, backend: string, now: int, ivs: Ivs) returns (answer: Answer)
      modifies engine`revoked
      ensures Rotates(fp, old(GuardNow()), engine.revoked, r.body, backend, now, ivs, answer)
      ensures answer != NotAvailable && answer != NotFound && !answer.ToBackend?
    {
      hide Validate, Rotate, RefreshTokenIn;
      var token := ReadRefreshToken(fp, r.body);
      if token.None? {
        return Raised;
      }
      if token.value == "" {
        return NoRefreshToken;
      }
      var pair := engine.RefreshTokenPair(token.value, backend, now, ivs);
      answer := if pair.Some? then Refreshed(pair.value) else RefreshRefused;
    }

    /** Forwarding, up to the frame: the backend must be connected and the request must have a payload. */
    method Forward(fp: Doubles, r: HttpRequest, backend: string, orders: HttpRequest -> Orders) returns (answer: Answer)
      requires Valid()
      modifies formatter
      ensures Valid()
      ensures answer == if !server.listener.HasBackend(backend) then NotAvailable
                        else Sent(server.listener.GetBackendFileDescriptor(backend), old(formatter.nextId),
                                  PayloadText(fp, r, backend, orders(r)))
    {
      hide PayloadText;
      if !server.listener.HasBackend(backend) {
        return NotAvailable;
      }
      var fd := server.listener.GetBackendFileDescriptor(backend);
      var frame := formatter.FormatRequestForBackend(fp, r, backend, orders(r));
      return if frame.None? then Raised else ToBackend(fd, frame.value);
    }

    /** What is decided about a request in the present state. */
    ghost function Decision(fp: Doubles, request: HttpRequest, now: int, lib: Library): Decision
      requires Valid()
      reads this, server, server.listener, server.table, engine, formatter
    {
      var es, ix := server.table.endpoints, server.table.index;
      Decide(fp, Found(es, ix, request.verb, request.path), PathParameters(es, ix, request.verb, request.path),
             GuardNow(), request, now, lib)
    }

    /** Lookup, authentication and validation, one after the other. */
    method Resolve(fp: Doubles, request: HttpRequest, now: int, lib: Library) returns (d: Decision)
      requires Valid()
      ensures d == Decision(fp, request, now, lib)
      ensures d == Answered(NotFound) <==> !ScanFinds(server.table.endpoints, request.verb, request.path)
      ensures d.Answered? ==> d.answer != NotAvailable && !d.answer.ToBackend?
      ensures d.Passing? && Live(server.State()) ==> server.listener.HasBackend(d.endpoint.backend)
    {
      hide Found, Admitted, AllErrors, Indexed, IsRefresh, Segments, Bindings, AllMeet, Live, ScanFinds, Built;
      var endpoint, parameters := server.table.FindEndpoint(request.path, request.verb, map[]);
      if endpoint.None? {
        return Answered(NotFound);
      }
      var e := endpoint.value;
      ghost var stored := FoundIsStored(server.table.endpoints, server.table.index, request.verb, request.path);
      RouteIsLive(server.State(), stored);
      var admitted := Authenticate(e, request.(pathParameters := parameters), now);
      if admitted.None? {
        return Answered(Unauthorized);
      }
      var valid, errors := ValidateRequest(fp, lib, admitted.value, e);
      if errors.None? {
        return Answered(Raised);
      }
      if !valid {
        return Answered(Invalid(errors.value));
      }
      return if IsRefresh(request) then Rotating(e) else Passing(e, admitted.value);
    }

    /**
     The whole of `RouteRequest`. A request that is passed on goes, as an object describing the
     admitted request, to the connection on which its endpoint's backend is registered; while the
     lifecycle invariant holds there is one, and "backend not available" is never answered.
     */
    method RouteRequest(fp: Doubles, request: HttpRequest, now: int, ivs: Ivs, lib: Library, orders: HttpRequest -> Orders)
      returns (answer: Answer)
      requires Valid()
      modifies engine`revoked, formatter
      ensures Valid()
      ensures var d := old(Decision(fp, request, now, lib));
              match d
              case Answered(a) => answer == a && engine.revoked == old(engine.revoked)
              case Rotating(e) => Rotates(fp, old(GuardNow()), engine.revoked, request.body, e.backend, now, ivs, answer)
              case Passing(e, admitted) =>
                && engine.revoked == old(engine.revoked)
                && answer == if !server.listener.HasBackend(e.backend) then NotAvailable
                             else Sent(server.listener.GetBackendFileDescriptor(e.backend), old(formatter.nextId),
                                       PayloadText(fp, admitted, e.backend, orders(admitted)))
      ensures answer == NotFound <==> !ScanFinds(server.table.endpoints, request.verb, request.path)
      ensures answer.ToBackend? ==> old(Decision(fp, request, now, lib)).Passing?
      ensures Live(server.State()) ==> answer != NotAvailable
      ensures Live(server.State()) && answer.ToBackend? ==>
                answer.fd in server.listener.connections
                && server.listener.connections[answer.fd] == old(Decision(fp, request, now, lib)).endpoint.backend
    {
      hide Decide, Found, PathParameters, PayloadText, Indexed, Rotates, Live, ScanFinds;
      ghost var world := server.State();
      var decision := Resolve(fp, request, now, lib);
      match decision {
        case Answered(a) => answer := a;
        case Rotating(e) => answer := Refresh(fp, request, e.backend, now, ivs);
        case Passing(e, admitted) =>
          answer := Forward(fp, admitted, e.backend, orders);
          if server.listener.HasBackend(e.backend) {
            BackendIsKnown(world, e.backend);
          }
      }
    }
  }

  lemma RouteIsLive(w: World, key: string)
    requires key in w.routes
    ensures Live(w) ==> w.routes[key].backend in w.descriptors
  {
  }

  lemma BackendIsKnown(w: World, id: string)
    requires id in w.descriptors
    ensures Live(w) ==> w.descriptors[id] in w.connections && w.connections[w.descriptors[id]] == id
  {
  }

  // ---------------------------------------------------------------- who is admitted

  /**
   Who passes, from the text of the header and the tokens of a pair issued for the endpoint's backend:
   an endpoint that asks for it admits a request exactly as the user of a live access token after the
   word `Bearer`, and nothing else gets in, in particular no refresh token.
   */
  lemma AccessTokensAdmit(g: Guard, e: Endpoint, r: HttpRequest, now: int, pair: Pair, user: string)
    requires Carries(g.cfg, pair, e.backend, user)
    ensures !e.requiresAuth ==> Admitted(g, e, r, now) == Some(r)
    ensures e.requiresAuth && "authorization" !in r.headers ==> Admitted(g, e, r, now) == None
    ensures e.requiresAuth && "authorization" in r.headers && !("Bearer " <= r.headers["authorization"]) ==>
              Admitted(g, e, r, now) == None
    ensures e.requiresAuth && "authorization" in r.headers && r.headers["authorization"] == "Bearer " + pair.access ==>
              Admitted(g, e, r, now) ==
              if g.ready && pair.access !in g.revoked && |pair.access| <= 4096
                 && now < OpenToken(g.cfg.aead, pair.access).payload.expiry
              then Some(r.(headers := r.headers["x-authenticated-user" := user])) else None
    ensures e.requiresAuth && "authorization" in r.headers && r.headers["authorization"] == "Bearer " + pair.refresh ==>
              Admitted(g, e, r, now) == None
  {
    hide OpenToken;
    AfterBearer(r, pair.access);
    AfterBearer(r, pair.refresh);
    NoBearer(r);
    hide BearerToken;
  }

  lemma AfterBearer(r: HttpRequest, token: string)
    ensures "authorization" in r.headers && r.headers["authorization"] == "Bearer " + token ==> BearerToken(r) == Some(token)
  {
    var word := "Bearer ";
    assert |word| == 7;
    assert (word + token)[..7] == word && (word + token)[7..] == token;
  }

  lemma NoBearer(r: HttpRequest)
    ensures BearerToken(r).Some? <==> "authorization" in r.headers && "Bearer " <= r.headers["authorization"]
  {
    var word := "Bearer ";
    assert |word| == 7;
    if "authorization" in r.headers && |r.headers["authorization"]| >= 7 {
      var header := r.headers["authorization"];
      assert word <= header <==> header[..7] == word;
    }
  }

  /** For the pair of a login: its access token opens the endpoints of that backend for the configured time. */
  lemma LoginIsAdmitted(g: Guard, e: Endpoint, r: HttpRequest, user: string, issued: int, now: int,
                        accessIv: string, refreshIv: string)
    requires Works(g.cfg.aead) && CanIssue(g.cfg, e.backend, user, issued) && e.requiresAuth && g.ready
    requires |accessIv| == 12 && IsBytes(accessIv) && |refreshIv| == 12 && IsBytes(refreshIv)
    requires "authorization" in r.headers
    ensures Generate(g.cfg, e.backend, user, issued, Ivs(Some(accessIv), Some(refreshIv))).Some?
    ensures var pair := Generate(g.cfg, e.backend, user, issued, Ivs(Some(accessIv), Some(refreshIv))).value;
            && (r.headers["authorization"] == "Bearer " + pair.access ==>
                  Admitted(g, e, r, now) ==
                  if pair.access !in g.revoked && |e.backend| + |user| <= 3019 && now < issued + g.cfg.accessSeconds
                  then Some(r.(headers := r.headers["x-authenticated-user" := user])) else None)
            && (r.headers["authorization"] == "Bearer " + pair.refresh ==> Admitted(g, e, r, now) == None)
  {
    GeneratedLifetime(g.cfg, e.backend, user, issued, accessIv, refreshIv);
    var pair := Generate(g.cfg, e.backend, user, issued, Ivs(Some(accessIv), Some(refreshIv))).value;
    hide OpenToken, Generate, Works, CanIssue, IsBytes, Validate;
    AfterBearer(r, pair.access);
    AfterBearer(r, pair.refresh);
    hide BearerToken;
    LivesIs(g.cfg, pair, e.backend, user, issued, g.revoked, e.backend, now);
    hide LivesFrom;
  }

  lemma LivesIs(cfg: Config, pair: Pair, server: string, user: string, issued: int, revoked: set<string>, asked: string, now: int)
    requires LivesFrom(cfg, pair, server, user, issued)
    ensures Validate(cfg.aead, revoked, Access, pair.access, asked, now) ==
            if pair.access !in revoked && |server| + |user| <= 3019 && asked == server && now < issued + cfg.accessSeconds
            then Some(user) else None
    ensures Validate(cfg.aead, revoked, Access, pair.refresh, asked, now) == None
  {
    hide Validate;
  }

  // ---------------------------------------------------------------- which answer is given

  /** The answers in the order in which a request can fail: not found, not authorized, invalid; and what is left. */
  lemma DecisionIsExact(fp: Doubles, found: Option<Endpoint>, parameters: map<string, string>, g: Guard,
                        request: HttpRequest, now: int, lib: Library)
    ensures var d := Decide(fp, found, parameters, g, request, now, lib);
            && (d == Answered(NotFound) <==> found.None?)
            && (found.Some? ==>
                  var e := found.value;
                  var admitted := Admitted(g, e, request.(pathParameters := parameters), now);
                  && (d == Answered(Unauthorized) <==> admitted.None?)
                  && (admitted.Some? ==>
                        var errors := AllErrors(fp, lib, admitted.value, e.schemas);
                        && (d == Answered(Raised) <==> errors.None?)
                        && (errors.Some? ==>
                              && ((exists es :: d == Answered(Invalid(es))) <==> !AllMeet(fp, lib, admitted.value, e.schemas))
                              && (d == Answered(Invalid(errors.value)) <==> errors.value != [])
                              && (d == Rotating(e) <==> errors.value == [] && request.path == "/auth/refresh" && request.verb == Post)
                              && (d == Passing(e, admitted.value) <==>
                                    errors.value == [] && !(request.path == "/auth/refresh" && request.verb == Post)))))
  {
    hide Admitted, AllErrors, AllMeet;
    if found.Some? {
      var admitted := Admitted(g, found.value, request.(pathParameters := parameters), now);
      if admitted.Some? && AllErrors(fp, lib, admitted.value, found.value.schemas).Some? {
        ValidationIsExact(fp, lib, admitted.value, found.value.schemas);
      }
    }
  }

  /**
   The refresh route: a body that is written as an object with the token as its `refresh_token` has
   exactly that token rotated; without one, or with no JSON text at all, there is nothing to rotate.
   */
  lemma RefreshBody(fp: Doubles, g: Guard, revoked: set<string>, v: Value, backend: string, now: int, ivs: Ivs, answer: Answer)
    requires v.Object? && Sound(v) && FloatFree(v)
    requires Rotates(fp, g, revoked, Json.Serialize(fp, v), backend, now, ivs, answer)
    ensures var given := MemberOf(v, "refresh_token");
            if Has(v, "refresh_token") && given.String? && given.text != "" then
              && answer == (if !g.ready then RefreshRefused
                            else match Rotate(g.cfg, g.revoked, given.text, backend, now, ivs)
                                 case Some(pair) => Refreshed(pair)
                                 case None => RefreshRefused)
              && revoked == (if g.ready && Validate(g.cfg.aead, g.revoked, TokenType.Refresh, given.text, backend, now).Some?
                             then g.revoked + {given.text} else g.revoked)
            else answer == NoRefreshToken && revoked == g.revoked
  {
    SerializeThenParse(fp, v);
    hide Json.Serialize, ReadText, Sound, FloatFree, Has, MemberOf, Validate, Rotate;
  }

  lemma NoJsonNoRefresh(fp: Doubles, g: Guard, revoked: set<string>, body: string, backend: string, now: int, ivs: Ivs, answer: Answer)
    requires Rotates(fp, g, revoked, body, backend, now, ivs, answer)
    ensures ReadText(fp, body).Fail? || (ReadText(fp, body).Ok? && !ReadText(fp, body).value.Object?) ==>
              answer == NoRefreshToken && revoked == g.revoked
    ensures ReadText(fp, body).Throw? ==> answer == Raised && revoked == g.revoked
  {
    hide ReadText, Validate, Rotate;
  }

  /** A payload that fits a frame goes out as a request frame, kind 2, with its true length. */
  lemma SentIsRequest(fd: int, id: int, text: string)
    requires |text| <= 1048576 && IsUint32(id)
    ensures Sent(fd, id, Some(text)) == ToBackend(fd, Frame(2, id, |text|, text))
    ensures WellFormed(Frame(2, id, |text|, text))
  {
  }
}
