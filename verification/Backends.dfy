/**
 The life of a backend: it registers with its endpoints, unregisters, or is lost. Two maps and the
 routing table change together; no step is interrupted, so each event is one step of a transition
 system.
 */
module Backends {
  import opened Endpoints
  import opened RoutingTable

  /** Who is connected where, which identifier is served by which descriptor, and the routes. */
  datatype World = World(connections: map<int, string>, descriptors: map<string, int>, routes: map<string, Endpoint>)

  const NoBackends := World(map[], map[], map[])

  datatype Event =
    | Registered(fd: int, id: string, endpoints: seq<Endpoint>)
    | Unregistered(fd: int, id: string)
    | Lost(fd: int)

  /** The endpoints of a registration, each put under the backend that registers, one after the other. */
  function AddAll(routes: map<string, Endpoint>, id: string, es: seq<Endpoint>): map<string, Endpoint> {
    if es == [] then routes
    else Effect(AddAll(routes, id, es[..|es| - 1]), Register(es[|es| - 1].(backend := id)))
  }

  /** The routes of the named backend go, and the descriptor's own registration with them. */
  function Departed(w: World, fd: int, named: string): World {
    var routes := Effect(w.routes, RemoveBackend(named));
    if fd in w.connections then World(w.connections - {fd}, w.descriptors - {w.connections[fd]}, routes)
    else w.(routes := routes)
  }

  /** One step. A lost descriptor is looked up among the identifiers; the order of that search is not fixed. */
  ghost predicate Steps(w: World, e: Event, w': World) {
    match e
    case Registered(fd, id, es) =>
      w' == if id == "" then w
            else World(w.connections[fd := id], w.descriptors[id := fd], AddAll(w.routes, id, es))
    case Unregistered(fd, id) => w' == Departed(w, fd, id)
    case Lost(fd) =>
      if exists id :: ServedBy(w, id, fd) then exists id :: ServedBy(w, id, fd) && w' == Departed(w, fd, id)
      else w' == w
  }

  predicate ServedBy(w: World, id: string, fd: int) {
    id in w.descriptors && w.descriptors[id] == fd
  }

  // ---------------------------------------------------------------- the invariant

  /** The two maps are each other's inverse. */
  ghost predicate Inverse(connections: map<int, string>, descriptors: map<string, int>) {
    && (forall fd :: fd in connections ==> connections[fd] in descriptors && descriptors[connections[fd]] == fd)
    && (forall id :: id in descriptors ==> descriptors[id] in connections && connections[descriptors[id]] == id)
  }

  /** Every route names a live backend. */
  ghost predicate RoutesLive(routes: map<string, Endpoint>, descriptors: map<string, int>) {
    forall k :: k in routes ==> routes[k].backend in descriptors
  }

  ghost predicate Live(w: World) {
    Inverse(w.connections, w.descriptors) && RoutesLive(w.routes, w.descriptors)
  }

  /**
   What the protocol asks of backends: one identifier per connection, an identifier live on at
   most one connection, and an unregistration naming the connection's own identifier.
   */
  predicate Disciplined(w: World, e: Event) {
    match e
    case Registered(fd, id, _) =>
      id == "" || ((fd in w.connections ==> w.connections[fd] == id) && (id in w.descriptors ==> w.descriptors[id] == fd))
    case Unregistered(fd, id) => fd in w.connections ==> w.connections[fd] == id
    case Lost(_) => true
  }

  // ---------------------------------------------------------------- one step

  /** Registration keeps the two maps inverse exactly when the connection and the identifier are free or already paired. */
  lemma RegisterKeepsInverse(connections: map<int, string>, descriptors: map<string, int>, fd: int, id: string)
    requires Inverse(connections, descriptors)
    ensures Inverse(connections[fd := id], descriptors[id := fd]) <==>
            (fd in connections ==> connections[fd] == id) && (id in descriptors ==> descriptors[id] == fd)
  {
    var c, d := connections[fd := id], descriptors[id := fd];
    if fd in connections && connections[fd] != id {
      var other := connections[fd];
      assert other in d && d[other] == fd && c[fd] == id;
    }
    if id in descriptors && descriptors[id] != fd {
      var other := descriptors[id];
      assert other in c && c[other] == id && d[id] == fd;
    }
  }

  lemma {:induction false} AddAllBackends(routes: map<string, Endpoint>, id: string, es: seq<Endpoint>)
    ensures forall k :: k in AddAll(routes, id, es) ==>
              var e := AddAll(routes, id, es)[k]; e.backend == id || (k in routes && routes[k] == e)
  {
    hide KeyOf, IsValid;
    if es != [] {
      AddAllBackends(routes, id, es[..|es| - 1]);
    }
  }

  /** Registering keeps the number of routes within the number there was and the number added. */
  lemma {:induction false} AddAllSize(routes: map<string, Endpoint>, id: string, es: seq<Endpoint>)
    ensures |AddAll(routes, id, es)| <= |routes| + |es|
  {
    hide KeyOf, IsValid;
    if es != [] {
      var n := |es| - 1;
      AddAllSize(routes, id, es[..n]);
      var before, e := AddAll(routes, id, es[..n]), es[n].(backend := id);
      assert before[KeyOf(e) := e].Keys == before.Keys + {KeyOf(e)};
    }
  }

  /**
   What a registration leaves in the table while there is room: every valid endpoint, under the backend
   that registered it, the last one where several have the same method and path.
   */
  lemma {:induction false} RegisteredIsRouted(routes: map<string, Endpoint>, id: string, es: seq<Endpoint>, i: nat)
    requires |routes| + |es| <= 4096 && i < |es| && IsValid(es[i])
    requires forall j :: i < j < |es| ==> es[j].verb != es[i].verb || es[j].path != es[i].path
    ensures var k := RouteKey(es[i].verb, es[i].path);
            k in AddAll(routes, id, es) && AddAll(routes, id, es)[k] == es[i].(backend := id)
    decreases |es|
  {
    hide RouteKey, IsValid;
    var n := |es| - 1;
    AddAllSize(routes, id, es[..n]);
    SameKey(es[n], id);
    if i < n {
      RegisteredIsRouted(routes, id, es[..n], i);
      if RouteKey(es[n].verb, es[n].path) == RouteKey(es[i].verb, es[i].path) {
        RouteKeyInjective(es[n].verb, es[n].path, es[i].verb, es[i].path);
      }
    }
  }

  /** Routes of other methods and paths are left as they were. */
  lemma {:induction false} OthersStay(routes: map<string, Endpoint>, id: string, es: seq<Endpoint>, verb: HttpMethod, path: string)
    requires forall j :: 0 <= j < |es| ==> es[j].verb != verb || es[j].path != path
    ensures var k := RouteKey(verb, path); var after := AddAll(routes, id, es);
            (k in after <==> k in routes) && (k in routes ==> after[k] == routes[k])
    decreases |es|
  {
    hide RouteKey, IsValid;
    if es != [] {
      var n := |es| - 1;
      OthersStay(routes, id, es[..n], verb, path);
      if RouteKey(es[n].verb, es[n].path) == RouteKey(verb, path) {
        RouteKeyInjective(es[n].verb, es[n].path, verb, path);
      }
    }
  }

  lemma RegisterKeepsLive(w: World, fd: int, id: string, es: seq<Endpoint>)
    requires Live(w) && Disciplined(w, Registered(fd, id, es)) && id != ""
    ensures Live(World(w.connections[fd := id], w.descriptors[id := fd], AddAll(w.routes, id, es)))
  {
    RegisterKeepsInverse(w.connections, w.descriptors, fd, id);
    AddAllBackends(w.routes, id, es);
    hide AddAll, Inverse;
    var routes, d := AddAll(w.routes, id, es), w.descriptors[id := fd];
    forall k | k in routes ensures routes[k].backend in d {
      if routes[k].backend != id {
        assert w.routes[k].backend in w.descriptors;
      }
    }
  }

  /**
   After a connection's end the routes are all live exactly when its own identifier was the one
   named, or it had no routes; a connection that never registered can do no harm.
   */
  lemma DepartureKeepsLive(w: World, fd: int, named: string)
    requires Live(w)
    ensures Live(Departed(w, fd, named)) <==>
            (fd in w.connections ==>
               named == w.connections[fd] || forall k :: k in w.routes ==> w.routes[k].backend != w.connections[fd])
  {
    var w' := Departed(w, fd, named);
    DepartureInverse(w, fd, named);
    assert forall k :: k in w'.routes <==> k in w.routes && w.routes[k].backend != named;
    if fd in w.connections {
      var own := w.connections[fd];
      assert w'.descriptors == w.descriptors - {own};
      if named != own {
        if k :| k in w.routes && w.routes[k].backend == own {
          assert k in w'.routes && w'.routes[k].backend !in w'.descriptors;
        }
      }
    }
  }

  lemma DepartureInverse(w: World, fd: int, named: string)
    requires Live(w)
    ensures Inverse(Departed(w, fd, named).connections, Departed(w, fd, named).descriptors)
  {
    hide Effect;
  }

  /** Every disciplined step keeps the invariant. */
  lemma StepKeepsLive(w: World, e: Event, w': World)
    requires Live(w) && Disciplined(w, e) && Steps(w, e, w')
    ensures Live(w')
  {
    match e
    case Registered(fd, id, es) =>
      if id != "" {
        RegisterKeepsLive(w, fd, id, es);
      }
    case Unregistered(fd, id) => DepartureKeepsLive(w, fd, id);
    case Lost(fd) =>
      if exists id :: ServedBy(w, id, fd) {
        var id :| ServedBy(w, id, fd) && w' == Departed(w, fd, id);
        DepartureKeepsLive(w, fd, id);
      }
  }

  /** A backend that left or was lost is unknown afterwards, and no route names it. */
  lemma GoneWithoutTrace(w: World, e: Event, w': World)
    requires Live(w) && Disciplined(w, e) && Steps(w, e, w')
    requires !e.Registered? && e.fd in w.connections
    ensures e.fd !in w'.connections && w.connections[e.fd] !in w'.descriptors
    ensures forall k :: k in w'.routes <==> k in w.routes && w.routes[k].backend != w.connections[e.fd]
    ensures forall k :: k in w'.routes ==> w'.routes[k] == w.routes[k]
  {
    var own := w.connections[e.fd];
    assert ServedBy(w, own, e.fd);
    if e.Lost? {
      var id :| ServedBy(w, id, e.fd) && w' == Departed(w, e.fd, id);
      assert w.connections[w.descriptors[id]] == id;
    }
  }

  // ---------------------------------------------------------------- what undisciplined steps do

  /** A backend that registers a route and then unregisters under another name leaves the route behind, dead. */
  lemma DeadRoute(e: Endpoint) returns (w: World, w': World)
    requires IsValid(e)
    ensures Steps(NoBackends, Registered(1, "a", [e]), w) && Live(w)
    ensures Steps(w, Unregistered(1, "b"), w') && !Live(w')
    ensures KeyOf(e) in w'.routes && w'.routes[KeyOf(e)].backend == "a" && w'.connections == map[] && w'.descriptors == map[]
  {
    hide KeyOf;
    var e' := e.(backend := "a");
    SameKey(e, "a");
    assert [e][..0] == [];
    assert AddAll(map[], "a", []) == map[];
    w := World(map[1 := "a"], map["a" := 1], map[KeyOf(e) := e']);
    assert AddAll(map[], "a", [e]) == w.routes;
    w' := World(map[], map[], w.routes);
    assert w.connections - {1} == map[] && w.descriptors - {"a"} == map[];
    assert Effect(w.routes, RemoveBackend("b")) == w.routes;
  }

  lemma SameKey(e: Endpoint, id: string)
    ensures KeyOf(e.(backend := id)) == KeyOf(e) && IsValid(e.(backend := id)) == IsValid(e)
  {
  }

  /** An identifier registered on a second connection leaves the first one mapped to an identifier served elsewhere. */
  lemma RegisteredTwice() returns (w: World, w': World)
    ensures Steps(NoBackends, Registered(1, "a", []), w) && Live(w)
    ensures Steps(w, Registered(2, "a", []), w') && !Live(w')
    ensures w'.connections[1 := "a"] == w'.connections && w'.descriptors == map["a" := 2]
  {
    w := World(map[1 := "a"], map["a" := 1], map[]);
    w' := World(map[1 := "a", 2 := "a"], map["a" := 2], map[]);
    assert w.connections[2 := "a"] == w'.connections && w.descriptors["a" := 2] == w'.descriptors;
    assert w'.connections[1] == "a" && w'.descriptors["a"] == 2;
  }

  // ---------------------------------------------------------------- whole runs

  /** A run: worlds and the events between them. */
  ghost predicate IsRun(ws: seq<World>, es: seq<Event>) {
    && |ws| == |es| + 1 && ws[0] == NoBackends
    && forall i :: 0 <= i < |es| ==> Steps(ws[i], es[i], ws[i + 1])
  }

  ghost predicate IsDisciplinedRun(ws: seq<World>, es: seq<Event>) {
    IsRun(ws, es) && forall i :: 0 <= i < |es| ==> Disciplined(ws[i], es[i])
  }

  /** In every world of every disciplined run the maps are inverse and every route is live. */
  lemma {:induction false} RunIsLive(ws: seq<World>, es: seq<Event>, n: nat)
    requires IsDisciplinedRun(ws, es) && n < |ws|
    ensures Live(ws[n])
  {
    hide Steps, Disciplined, Live;
    if n == 0 {
      StartIsLive();
    } else {
      RunIsLive(ws, es, n - 1);
      assert Steps(ws[n - 1], es[n - 1], ws[n - 1 + 1]) && Disciplined(ws[n - 1], es[n - 1]);
      StepKeepsLive(ws[n - 1], es[n - 1], ws[n]);
    }
  }

  lemma StartIsLive()
    ensures Live(NoBackends)
  {
  }

  /** In such a run a routed request finds its backend, on the connection that backend registered. */
  lemma RoutedIsAvailable(ws: seq<World>, es: seq<Event>, n: nat, key: string)
    requires IsDisciplinedRun(ws, es) && n < |ws|
    requires key in ws[n].routes
    ensures var id := ws[n].routes[key].backend;
            && id in ws[n].descriptors
            && ws[n].descriptors[id] in ws[n].connections
            && ws[n].connections[ws[n].descriptors[id]] == id
  {
    RunIsLive(ws, es, n);
  }
}
