/**
 The server's handling of backend frames, over the listener's two maps and the routing table.
 */
module GatewayServer {
  import opened Text
  import opened Endpoints
  import opened RoutingTable
  import opened VectorIndex
  import opened Backends
  import opened Frames
  import opened Json
  import opened JsonReader
  import opened JsonParsing
  import opened ParameterSchema
  import opened Registration

  // ---------------------------------------------------------------- what a frame means

  function BackendId(v: Value): string {
    if Has(v, "backend_id") then TextOf(MemberOf(v, "backend_id")) else ""
  }

  /** The event a frame stands for, if it changes anything, and whether reading the frame ended in an exception. */
  datatype Understood = Understood(event: Option<Event>, raised: bool)

  /**
   What a frame from a backend is understood as. Heartbeats, answers and payloads that are not
   understood change nothing. When an endpoint of a registration raises an exception, the backend and
   the endpoints before it are registered all the same.
   */
  function EventOf(fp: Doubles, fd: int, frame: Frame, blanks: int -> int -> Schema): (r: Understood)
    ensures r.event.Some? && r.event.value.Registered? ==> AllBuilt(r.event.value.endpoints)
  {
    if frame.kind == REGISTRATION then
      match ReadText(fp, frame.payload)
      case Throw => Understood(None, true)
      case Fail(_, _) => Understood(None, false)
      case Ok(v, _) =>
        if !v.Object? || BackendId(v) == "" then Understood(None, false)
        else
          var collected := ParseEndpoints(fp, EndpointValues(v), blanks);
          Understood(Some(Registered(fd, BackendId(v), collected.endpoints)), collected.raised)
    else if frame.kind == UNREGISTRATION then
      match ReadText(fp, frame.payload)
      case Throw => Understood(None, true)
      case Fail(_, _) => Understood(None, false)
      case Ok(v, _) => Understood(if Has(v, "backend_id") then Some(Unregistered(fd, BackendId(v))) else None, false)
    else if frame.kind == ERROR then Understood(Some(Lost(fd)), false)
    else Understood(None, false)
  }

  /** A well-formed registration without floating point numbers is understood, as written. */
  lemma RegistrationUnderstood(fp: Doubles, fd: int, frame: Frame, blanks: int -> int -> Schema)
    requires frame.kind == REGISTRATION && ReadText(fp, frame.payload).Ok?
    requires FloatFree(ReadText(fp, frame.payload).value) && BackendId(ReadText(fp, frame.payload).value) != ""
    ensures var v := ReadText(fp, frame.payload).value;
            EventOf(fp, fd, frame, blanks) ==
            Understood(Some(Registered(fd, BackendId(v), ReadEndpoints(EndpointValues(v), blanks))), false)
  {
    RegistrationIsLossless(fp, frame.payload, blanks);
  }

  /** Reading a registration raises if and only if reading one of its endpoints does; those before the first such are registered. */
  lemma RegistrationRaises(fp: Doubles, fd: int, frame: Frame, blanks: int -> int -> Schema)
    requires frame.kind == 0 && ReadText(fp, frame.payload).Ok?
    requires ReadText(fp, frame.payload).value.Object? && BackendId(ReadText(fp, frame.payload).value) != ""
    ensures var v := ReadText(fp, frame.payload).value;
            var vs := EndpointValues(v);
            var u := EventOf(fp, fd, frame, blanks);
            && (u.raised <==> exists i :: RaisesAt(fp, vs, blanks, i))
            && (forall i :: RaisesAt(fp, vs, blanks, i) && (forall j :: RaisesAt(fp, vs, blanks, j) ==> i <= j) ==>
                  u.event == Some(Registered(fd, BackendId(v), ParseEndpoints(fp, vs[..i], blanks).endpoints)))
  {
    hide ReadText, ParseEndpoints, ParseEndpoint, BackendId, EndpointValues, AllBuilt;
    var vs := EndpointValues(ReadText(fp, frame.payload).value);
    ListRaises(fp, vs, blanks);
    forall i | RaisesAt(fp, vs, blanks, i) && (forall j :: RaisesAt(fp, vs, blanks, j) ==> i <= j)
      ensures ParseEndpoints(fp, vs, blanks).endpoints == ParseEndpoints(fp, vs[..i], blanks).endpoints
    {
      FirstRaise(fp, vs, blanks, i);
    }
  }

  class UnixSocketListener {
    var connections: map<int, string>
    var descriptors: map<string, int>

    constructor ()
      ensures connections == map[] && descriptors == map[]
    {
      connections, descriptors := map[], map[];
    }

    method RegisterBackend(fd: int, id: string)
      modifies this
      ensures connections == old(connections)[fd := id] && descriptors == old(descriptors)[id := fd]
    {
      connections := connections[fd := id];
      descriptors := descriptors[id := fd];
    }

    method UnregisterBackend(fd: int)
      modifies this
      ensures connections == old(connections) - {fd}
      ensures descriptors == if fd in old(connections) then old(descriptors) - {old(connections)[fd]} else old(descriptors)
    {
      if fd in connections {
        var id := connections[fd];
        descriptors := descriptors - {id};
        connections := connections - {fd};
      }
    }

    function HasBackend(id: string): bool
      reads this
    {
      id in descriptors
    }

    function GetBackendFileDescriptor(id: string): int
      reads this
    {
      if id in descriptors then descriptors[id] else -1
    }
  }

  class Server {
    const listener: UnixSocketListener
    const table: Table

    ghost predicate Valid()
      reads this, listener, table
    {
      table.Valid() && AllBuilt(table.endpoints)
    }

    /** The state as the transition system sees it. */
    ghost function State(): World
      reads this, listener, table
      requires Valid()
    {
      World(listener.connections, listener.descriptors, table.Contents())
    }

    constructor ()
      ensures Valid() && fresh(listener) && fresh(table) && State() == NoBackends
    {
      listener := new UnixSocketListener();
      table := new Table();
    }

    /** A Registration frame: the backend, then each of its endpoints under its identifier. */
    method HandleRegistration(fd: int, id: string, definitions: seq<Endpoint>)
      requires Valid() && AllBuilt(definitions)
      modifies listener, table
      ensures Valid() && Steps(old(State()), Registered(fd, id, definitions), State())
    {
      hide Effect, Indexed, View, KeysOf, Built;
      if id == "" {
        return;
      }
      listener.RegisterBackend(fd, id);
      assert definitions[..0] == [];
      for i := 0 to |definitions|
        invariant Valid()
        invariant listener.connections == old(listener.connections)[fd := id]
        invariant listener.descriptors == old(listener.descriptors)[id := fd]
        invariant table.Contents() == AddAll(old(table.Contents()), id, definitions[..i])
      {
        assert definitions[..i + 1][..i] == definitions[..i];
        BuiltForBackend(definitions[i], id);
        var _ := table.RegisterEndpoint(definitions[i].(backend := id));
      }
      assert definitions[..|definitions|] == definitions;
    }

    method HandleUnregistration(fd: int, id: string)
      requires Valid()
      modifies listener, table
      ensures Valid() && Steps(old(State()), Unregistered(fd, id), State())
    {
      hide Effect, Indexed, View, KeysOf, AllShaped, AllBuilt;
      var _ := table.RemoveEndpointsByBackend(id);
      listener.UnregisterBackend(fd);
      assert fd !in old(listener.connections) ==> old(listener.connections) - {fd} == old(listener.connections);
    }

    /** An Error frame, or the end of the connection: the identifier served by the descriptor is searched for. */
    method HandleLoss(fd: int)
      requires Valid()
      modifies listener, table
      ensures Valid() && Steps(old(State()), Lost(fd), State())
    {
      hide Effect;
      var ids := listener.descriptors.Keys;
      ghost var w := State();
      while ids != {}
        invariant Valid() && State() == w
        invariant ids <= listener.descriptors.Keys
        invariant forall id :: id in listener.descriptors && id !in ids ==> !ServedBy(w, id, fd)
        decreases |ids|
      {
        var id :| id in ids;
        ids := ids - {id};
        if listener.GetBackendFileDescriptor(id) == fd {
          assert ServedBy(w, id, fd);
          HandleUnregistration(fd, id);
          return;
        }
      }
    }

    /** One event, with the invariant: a disciplined one keeps it. */
    method Handle(e: Event)
      requires Valid() && (e.Registered? ==> AllBuilt(e.endpoints))
      modifies listener, table
      ensures Valid() && Steps(old(State()), e, State())
      ensures old(Live(State())) && old(Disciplined(State(), e)) ==> Live(State())
    {
      ghost var w := State();
      match e {
        case Registered(fd, id, es) => HandleRegistration(fd, id, es);
        case Unregistered(fd, id) => HandleUnregistration(fd, id);
        case Lost(fd) => HandleLoss(fd);
      }
      hide Live, Disciplined, Steps;
      if Live(w) && Disciplined(w, e) {
        StepKeepsLive(w, e, State());
      }
    }

    /**
     One frame of a backend connection: it takes exactly the step of the event it stands for, also
     when reading it ended in an exception; the connection stays active unless it did, or the backend
     unregistered or was lost.
     */
    method HandleFrame(fp: Doubles, fd: int, frame: Frame, blanks: int -> int -> Schema) returns (active: bool, raised: bool)
      requires Valid()
      modifies listener, table
      ensures Valid()
      ensures var u := EventOf(fp, fd, frame, blanks);
              && raised == u.raised
              && match u.event
                 case None => active == !raised && State() == old(State())
                 case Some(e) => active == (!raised && e.Registered?) && Steps(old(State()), e, State())
    {
      hide Steps, EventOf, Disciplined, Live;
      var u := DecodeFrame(fp, fd, frame, blanks);
      if u.event.Some? {
        Handle(u.event.value);
      }
      return !u.raised && (u.event.Some? ==> u.event.value.Registered?), u.raised;
    }
  }

  /** The backend takes no part in how a path is split. */
  lemma BuiltForBackend(e: Endpoint, id: string)
    requires Built(e)
    ensures Shaped(e) && Built(e.(backend := id))
  {
    hide Segments;
  }

  /** Reading a frame: the parse of its payload, and for a registration the parses of its endpoints. */
  method DecodeFrame(fp: Doubles, fd: int, frame: Frame, blanks: int -> int -> Schema) returns (r: Understood)
    ensures r == EventOf(fp, fd, frame, blanks)
  {
    hide ReadText, ParseEndpoints, AllBuilt;
    if frame.kind == REGISTRATION || frame.kind == UNREGISTRATION {
      var parser := new JsonParser(fp);
      var verdict, root := parser.Parse(frame.payload);
      if verdict != Accepted {
        return Understood(None, verdict == Thrown);
      }
      if frame.kind == UNREGISTRATION {
        return Understood(if Has(root, "backend_id") then Some(Unregistered(fd, BackendId(root))) else None, false);
      }
      if !root.Object? || BackendId(root) == "" {
        return Understood(None, false);
      }
      var collected := ParseEndpointList(fp, EndpointValues(root), blanks);
      return Understood(Some(Registered(fd, BackendId(root), collected.endpoints)), collected.raised);
    }
    return Understood(if frame.kind == ERROR then Some(Lost(fd)) else None, false);
  }

  /** An endpoint that is found is stored, under its own key. */
  lemma FoundIsStored(es: seq<Endpoint>, ix: Index<string>, verb: HttpMethod, path: string) returns (k: string)
    requires Indexed(KeysOf(es), ix) && AllShaped(es) && Found(es, ix, verb, path).Some?
    ensures k in View(KeysOf(es), es, ix) && View(KeysOf(es), es, ix)[k] == Found(es, ix, verb, path).value
  {
    hide KeyOf, RouteKey, Matches;
    var e := Found(es, ix, verb, path).value;
    PositionOf(KeysOf(es), ix, RouteKey(verb, path));
    var i :| 0 <= i < |es| && es[i] == e;
    k := KeysOf(es)[i];
  }
}
