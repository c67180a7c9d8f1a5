/**
 The routing table: a vector of endpoints and an index from route keys to positions, kept in step
 by appending, swapping with the last element, and rebuilding.
 */
module RoutingTable {
  import opened Text
  import opened Endpoints
  import opened VectorIndex

  const MAX_ENDPOINTS: nat := 4096

  function KeysOf(es: seq<Endpoint>): (keys: seq<string>)
    ensures |keys| == |es|
    ensures forall i :: 0 <= i < |es| ==> keys[i] == KeyOf(es[i])
  {
    seq(|es|, i requires 0 <= i < |es| => KeyOf(es[i]))
  }

  // ---------------------------------------------------------------- finding

  predicate AllShaped(es: seq<Endpoint>) {
    forall j :: 0 <= j < |es| ==> Shaped(es[j])
  }

  /** Every endpoint's segments were made from its path, as the program's builder does. */
  predicate AllBuilt(es: seq<Endpoint>) {
    forall j :: 0 <= j < |es| ==> Built(es[j])
  }

  /** What holds of all endpoints holds of some of them. */
  lemma FewerEndpoints(es: seq<Endpoint>, kept: seq<Endpoint>)
    requires forall e :: e in kept ==> e in es
    ensures AllBuilt(es) ==> AllBuilt(kept)
    ensures AllShaped(es) ==> AllShaped(kept)
    ensures (forall i :: 0 <= i < |es| ==> IsValid(es[i])) ==> forall i :: 0 <= i < |kept| ==> IsValid(kept[i])
  {
    hide Built, Shaped, IsValid;
    assert forall i :: 0 <= i < |kept| ==> kept[i] in kept;
  }

  lemma BuiltIsShaped(es: seq<Endpoint>)
    requires AllBuilt(es)
    ensures AllShaped(es)
  {
  }

  /** The endpoint is for this method and its template matches the request. */
  predicate Serves(e: Endpoint, verb: HttpMethod, request: seq<string>)
    requires Shaped(e)
  {
    e.verb == verb && Matches(e, request)
  }

  /** The position of the first endpoint that serves the request, or the length. */
  function FirstMatch(es: seq<Endpoint>, verb: HttpMethod, request: seq<string>): (i: nat)
    requires AllShaped(es)
    ensures i <= |es|
    ensures i < |es| ==> Serves(es[i], verb, request)
    ensures forall j :: 0 <= j < i ==> !Serves(es[j], verb, request)
  {
    if es == [] || Serves(es[0], verb, request) then 0
    else 1 + FirstMatch(es[1..], verb, request)
  }

  /** The plain scan: some stored endpoint serves the request. */
  ghost predicate ScanFinds(es: seq<Endpoint>, verb: HttpMethod, path: string)
    requires AllShaped(es)
  {
    exists j :: 0 <= j < |es| && Serves(es[j], verb, Segments(path))
  }

  /** What `FindEndpoint` returns: the exact route if there is one, else the first match. */
  ghost function Found(es: seq<Endpoint>, ix: Index<string>, verb: HttpMethod, path: string): Option<Endpoint>
    requires Indexed(KeysOf(es), ix) && AllShaped(es)
  {
    if RouteKey(verb, path) in ix then Some(es[ix[RouteKey(verb, path)]])
    else
      var i := FirstMatch(es, verb, Segments(path));
      if i < |es| then Some(es[i]) else None
  }

  /** An exact route is one whose endpoint has the request's method and, literally, its path. */
  lemma ExactRoute(es: seq<Endpoint>, ix: Index<string>, verb: HttpMethod, path: string)
    requires Indexed(KeysOf(es), ix)
    ensures RouteKey(verb, path) in ix <==> exists j :: 0 <= j < |es| && es[j].verb == verb && es[j].path == path
    ensures RouteKey(verb, path) in ix ==>
              var e := es[ix[RouteKey(verb, path)]]; e.verb == verb && e.path == path
  {
    hide RouteKey;
    var key := RouteKey(verb, path);
    PositionOf(KeysOf(es), ix, key);
    if key in ix {
      var e := es[ix[key]];
      assert KeyOf(e) == key;
      RouteKeyInjective(e.verb, e.path, verb, path);
    }
    if j :| 0 <= j < |es| && es[j].verb == verb && es[j].path == path {
      assert KeysOf(es)[j] == key;
    }
  }

  /**
   The fast lookup finds something exactly when the plain scan does, and what it finds matches
   the request; an exact route wins over every pattern.
   */
  lemma LookupAgreesWithScan(es: seq<Endpoint>, ix: Index<string>, verb: HttpMethod, path: string)
    requires Indexed(KeysOf(es), ix) && AllBuilt(es)
    ensures AllShaped(es)
    ensures Found(es, ix, verb, path).Some? <==> ScanFinds(es, verb, path)
    ensures var r := Found(es, ix, verb, path);
            r.Some? ==> r.value in es && r.value.verb == verb && Matches(r.value, Segments(path))
    ensures var r := Found(es, ix, verb, path);
            (exists j :: 0 <= j < |es| && es[j].verb == verb && es[j].path == path) ==> r.Some? && r.value.path == path
  {
    BuiltIsShaped(es);
    hide *;
    ExactRoute(es, ix, verb, path);
    PositionOf(KeysOf(es), ix, RouteKey(verb, path));
    FoundCases(es, ix, verb, path);
    if RouteKey(verb, path) in ix {
      StoredMatchesItself(es, ix[RouteKey(verb, path)]);
      ServesIsFound(es, ix[RouteKey(verb, path)], verb, path);
    }
  }

  /** The same as an equivalence, for tables built as the program builds them. */
  lemma FoundIsScan(es: seq<Endpoint>, ix: Index<string>, verb: HttpMethod, path: string)
    requires Indexed(KeysOf(es), ix) && AllShaped(es)
    ensures AllBuilt(es) ==> (Found(es, ix, verb, path).Some? <==> ScanFinds(es, verb, path))
  {
    hide *;
    if AllBuilt(es) {
      LookupAgreesWithScan(es, ix, verb, path);
    }
  }

  lemma FoundCases(es: seq<Endpoint>, ix: Index<string>, verb: HttpMethod, path: string)
    requires Indexed(KeysOf(es), ix) && AllShaped(es)
    ensures RouteKey(verb, path) in ix ==> Found(es, ix, verb, path) == Some(es[ix[RouteKey(verb, path)]])
    ensures RouteKey(verb, path) !in ix ==>
              var r := Found(es, ix, verb, path);
              && (r.Some? <==> ScanFinds(es, verb, path))
              && (r.Some? ==> r.value in es && r.value.verb == verb && Matches(r.value, Segments(path)))
  {
    hide RouteKey, KeysOf, Matches, Segments;
  }

  lemma ServesIsFound(es: seq<Endpoint>, j: nat, verb: HttpMethod, path: string)
    requires AllShaped(es) && j < |es| && es[j].verb == verb && Matches(es[j], Segments(path))
    ensures ScanFinds(es, verb, path)
  {
    hide Matches, Segments;
    assert Serves(es[j], verb, Segments(path));
  }

  lemma StoredMatchesItself(es: seq<Endpoint>, j: nat)
    requires AllBuilt(es) && j < |es|
    ensures Shaped(es[j]) && Matches(es[j], Segments(es[j].path))
  {
    hide Matches, Segments;
    TemplateMatchesItself(es[j]);
  }

  // ---------------------------------------------------------------- filtering

  function WithoutBackend(es: seq<Endpoint>, backend: string): (r: seq<Endpoint>)
    ensures |r| <= |es|
    ensures forall e :: e in r <==> e in es && e.backend != backend
  {
    if es == [] then []
    else
      var rest := WithoutBackend(es[..|es| - 1], backend);
      var e := es[|es| - 1];
      assert es == es[..|es| - 1] + [e];
      if e.backend != backend then rest + [e] else rest
  }

  /** A rebuilt table is the old one restricted to the other backends' routes. */
  lemma FilterView(es: seq<Endpoint>, ix: Index<string>, ix': Index<string>, backend: string)
    requires Indexed(KeysOf(es), ix) && Indexed(KeysOf(WithoutBackend(es, backend)), ix')
    ensures View(KeysOf(WithoutBackend(es, backend)), WithoutBackend(es, backend), ix') ==
            Effect(View(KeysOf(es), es, ix), RemoveBackend(backend))
  {
    hide KeyOf, WithoutBackend, KeysOf, Indexed, View, Holds, Effect;
    var es' := WithoutBackend(es, backend);
    var m, m' := View(KeysOf(es), es, ix), View(KeysOf(es'), es', ix');
    forall k, e ensures Entry(m', k, e) <==> Entry(m, k, e) && e.backend != backend {
      HoldsIsView(KeysOf(es), es, ix, k, e);
      HoldsIsView(KeysOf(es'), es', ix', k, e);
      HoldsIsMember(es, k, e);
      HoldsIsMember(es', k, e);
    }
    SameEntries(m, m', backend);
  }

  ghost predicate Entry(m: map<string, Endpoint>, k: string, e: Endpoint) {
    k in m && m[k] == e
  }

  lemma SameEntries(m: map<string, Endpoint>, m': map<string, Endpoint>, backend: string)
    requires forall k, e :: Entry(m', k, e) <==> Entry(m, k, e) && e.backend != backend
    ensures m' == Effect(m, RemoveBackend(backend))
  {
    var f := Effect(m, RemoveBackend(backend));
    forall k ensures (k in m' <==> k in f) && (k in m' ==> f[k] == m'[k]) {
      if k in m' {
        assert Entry(m', k, m'[k]);
      }
      if k in m {
        assert Entry(m, k, m[k]);
      }
    }
  }

  lemma HoldsIsMember(es: seq<Endpoint>, k: string, e: Endpoint)
    ensures Holds(KeysOf(es), es, k, e) <==> e in es && KeyOf(e) == k
  {
    hide KeyOf;
    if e in es {
      var i :| 0 <= i < |es| && es[i] == e;
      assert KeysOf(es)[i] == KeyOf(e);
    }
  }

  // ---------------------------------------------------------------- operations over a run

  datatype Operation =
    | Register(endpoint: Endpoint)
    | Unregister(path: string, verb: HttpMethod)
    | RemoveBackend(backend: string)
    | Clear

  /** What an operation does to the table as a bounded map. */
  function Effect(m: map<string, Endpoint>, op: Operation): map<string, Endpoint> {
    match op
    case Register(e) =>
      if IsValid(e) && (KeyOf(e) in m || |m| < MAX_ENDPOINTS) then m[KeyOf(e) := e] else m
    case Unregister(path, verb) => m - {RouteKey(verb, path)}
    case RemoveBackend(b) => map k | k in m && m[k].backend != b :: m[k]
    case Clear => map[]
  }

  function Effects(m: map<string, Endpoint>, ops: seq<Operation>): map<string, Endpoint> {
    if ops == [] then m else Effect(Effects(m, ops[..|ops| - 1]), ops[|ops| - 1])
  }

  // ---------------------------------------------------------------- the table

  class Table {
    var endpoints: seq<Endpoint>
    var index: Index<string>

    ghost predicate Valid()
      reads this
    {
      && Indexed(KeysOf(endpoints), index)
      && |endpoints| <= MAX_ENDPOINTS
      && AllShaped(endpoints)
      && (forall i :: 0 <= i < |endpoints| ==> IsValid(endpoints[i]))
    }

    ghost function Contents(): map<string, Endpoint>
      reads this
      requires Valid()
    {
      View(KeysOf(endpoints), endpoints, index)
    }

    constructor ()
      ensures Valid() && Contents() == map[] && endpoints == []
    {
      endpoints, index := [], map[];
    }

    method RegisterEndpoint(e: Endpoint) returns (ok: bool)
      requires Valid() && Shaped(e)
      modifies this
      ensures Valid() && Contents() == Effect(old(Contents()), Register(e))
      ensures ok <==> IsValid(e) && (KeyOf(e) in old(Contents()) || |old(endpoints)| < MAX_ENDPOINTS)
      ensures endpoints == if !ok then old(endpoints)
                           else if KeyOf(e) in old(index) then old(endpoints)[old(index)[KeyOf(e)] := e]
                           else old(endpoints) + [e]
      ensures old(AllBuilt(endpoints)) && Built(e) ==> AllBuilt(endpoints)
    {
      hide KeyOf, KeysOf, Indexed, View, Built;
      ok := false;
      if IsValid(e) {
        var key := KeyOf(e);
        ghost var keys := KeysOf(endpoints);
        PositionOf(keys, index, key);
        if key !in index {
          if |endpoints| < MAX_ENDPOINTS {
            Append(keys, endpoints, index, key, e);
            var position := |endpoints|;
            assert KeysOf(endpoints + [e]) == keys + [key];
            endpoints := endpoints + [e];
            index := index[key := position];
            ok := true;
          }
        } else {
          Replace(keys, endpoints, index, key, e);
          assert KeysOf(endpoints[index[key] := e]) == keys;
          endpoints := endpoints[index[key] := e];
          ok := true;
        }
      }
    }

    method UnregisterEndpoint(path: string, verb: HttpMethod) returns (ok: bool)
      requires Valid()
      modifies this
      ensures Valid() && Contents() == Effect(old(Contents()), Unregister(path, verb))
      ensures ok <==> RouteKey(verb, path) in old(Contents())
      ensures ok ==> endpoints == SwapPop(old(endpoints), old(index)[RouteKey(verb, path)])
      ensures !ok ==> endpoints == old(endpoints)
      ensures old(AllBuilt(endpoints)) ==> AllBuilt(endpoints)
    {
      hide KeyOf, RouteKey, KeysOf, Indexed, View, SwapPop, Unindexed, IsValid, AllBuilt, AllShaped;
      var key := RouteKey(verb, path);
      ok := key in index;
      if ok {
        SwapPopIndexed(KeysOf(endpoints), endpoints, index, key);
        var kept, keptIndex := WithoutKey(endpoints, index, key);
        FewerEndpoints(endpoints, kept);
        endpoints, index := kept, keptIndex;
      } else {
        assert Contents() - {key} == Contents();
      }
    }

    /** The pattern scan: the first endpoint that serves the request, and its bindings. */
    method ScanEndpoints(path: string, verb: HttpMethod, before: map<string, string>)
      returns (i: nat, parameters: map<string, string>)
      requires AllShaped(endpoints)
      ensures i <= |endpoints| && (i < |endpoints| ==> Serves(endpoints[i], verb, Segments(path)))
      ensures forall j :: 0 <= j < i ==> !Serves(endpoints[j], verb, Segments(path))
      ensures i < |endpoints| ==>
                |Segments(path)| == |endpoints[i].segments|
                && parameters == Bindings(endpoints[i], Segments(path), |endpoints[i].segments|)
    {
      hide Segments, Bindings;
      parameters := before;
      i := 0;
      while i < |endpoints|
        invariant 0 <= i <= |endpoints|
        invariant forall j :: 0 <= j < i ==> !Serves(endpoints[j], verb, Segments(path))
      {
        if endpoints[i].verb == verb {
          var ok;
          ok, parameters := MatchesPath(endpoints[i], path, parameters);
          if ok {
            return;
          }
        }
        i := i + 1;
      }
    }

    method FindEndpoint(path: string, verb: HttpMethod, before: map<string, string>)
      returns (found: Option<Endpoint>, parameters: map<string, string>)
      requires Valid()
      ensures found == Found(endpoints, index, verb, path)
      ensures RouteKey(verb, path) in index ==> parameters == before
      ensures RouteKey(verb, path) !in index && found.Some? ==>
                |Segments(path)| == |found.value.segments|
                && parameters == Bindings(found.value, Segments(path), |found.value.segments|)
      ensures AllBuilt(endpoints) ==> (found.Some? <==> ScanFinds(endpoints, verb, path))
    {
      hide KeyOf, RouteKey, KeysOf, Indexed, View, AllBuilt, ScanFinds, Serves, Segments, Bindings;
      PositionOf(KeysOf(endpoints), index, RouteKey(verb, path));
      parameters := before;
      var key := RouteKey(verb, path);
      if key in index {
        found := Some(endpoints[index[key]]);
      } else {
        var i;
        i, parameters := ScanEndpoints(path, verb, parameters);
        found := if i < |endpoints| then Some(endpoints[i]) else None;
      }
      FoundIsScan(endpoints, index, verb, path);
    }

    method HasEndpoint(path: string, verb: HttpMethod) returns (result: bool)
      requires Valid()
      ensures result <==> Found(endpoints, index, verb, path).Some?
      ensures AllBuilt(endpoints) ==> (result <==> ScanFinds(endpoints, verb, path))
    {
      hide KeyOf, RouteKey, KeysOf, Indexed, View, AllBuilt, ScanFinds, Serves, Segments;
      if RouteKey(verb, path) in index {
        result := true;
      } else {
        var i, _ := ScanEndpoints(path, verb, map[]);
        result := i < |endpoints|;
      }
      FoundIsScan(endpoints, index, verb, path);
    }

    method RemoveEndpointsByBackend(backend: string) returns (removed: nat)
      requires Valid()
      modifies this
      ensures Valid() && Contents() == Effect(old(Contents()), RemoveBackend(backend))
      ensures endpoints == WithoutBackend(old(endpoints), backend)
      ensures removed == |old(Contents())| - |Contents()|
      ensures old(AllBuilt(endpoints)) ==> AllBuilt(endpoints)
    {
      hide KeyOf, KeysOf, Indexed, View, Effect, Built;
      var kept, keptIndex;
      kept, keptIndex, removed := Rebuild(endpoints, index, backend);
      FilterView(endpoints, index, keptIndex, backend);
      assert forall i :: 0 <= i < |kept| ==> kept[i] in endpoints;
      endpoints, index := kept, keptIndex;
    }

    method ClearAll()
      modifies this
      ensures AllBuilt(endpoints)
      ensures Valid() && Contents() == map[] && endpoints == []
    {
      endpoints, index := [], map[];
    }

    /** Over every run of operations the table refines a plain map of at most 4096 entries. */
    method Replay(ops: seq<Operation>)
      requires Valid()
      requires forall i :: 0 <= i < |ops| && ops[i].Register? ==> Shaped(ops[i].endpoint)
      modifies this
      ensures Valid() && Contents() == Effects(old(Contents()), ops)
      ensures |Contents()| == |endpoints| <= 4096
      ensures old(AllBuilt(endpoints)) && (forall i :: 0 <= i < |ops| && ops[i].Register? ==> Built(ops[i].endpoint)) ==>
                AllBuilt(endpoints)
    {
      hide Effect, KeyOf, RouteKey, KeysOf, Indexed, View, Built, AllBuilt;
      assert ops[..0] == [];
      for i := 0 to |ops|
        invariant Valid() && Contents() == Effects(old(Contents()), ops[..i])
        invariant old(AllBuilt(endpoints)) && (forall j :: 0 <= j < |ops| && ops[j].Register? ==> Built(ops[j].endpoint)) ==>
                    AllBuilt(endpoints)
      {
        ghost var before := Contents();
        Perform(ops[i]);
        assert ops[..i + 1][..i] == ops[..i];
      }
      assert ops[..|ops|] == ops;
    }

    method Perform(op: Operation)
      requires Valid() && (op.Register? ==> Shaped(op.endpoint))
      modifies this
      ensures Valid() && Contents() == Effect(old(Contents()), op)
      ensures old(AllBuilt(endpoints)) && (op.Register? ==> Built(op.endpoint)) ==> AllBuilt(endpoints)
    {
      hide KeyOf, RouteKey, KeysOf, Indexed, View, Built, AllBuilt;
      match op {
        case Register(e) => var _ := RegisterEndpoint(e);
        case Unregister(path, verb) => var _ := UnregisterEndpoint(path, verb);
        case RemoveBackend(b) => var _ := RemoveEndpointsByBackend(b);
        case Clear => ClearAll();
      }
    }
  }

  /** Overwrite the entry with the last one, point the last one's key at the new place, and pop. */
  method WithoutKey(es: seq<Endpoint>, ix: Index<string>, key: string)
    returns (es': seq<Endpoint>, ix': Index<string>)
    requires Indexed(KeysOf(es), ix) && key in ix
    ensures ix[key] < |es| && es' == SwapPop(es, ix[key]) && KeysOf(es') == SwapPop(KeysOf(es), ix[key])
    ensures ix' == Unindexed(KeysOf(es), ix, key)
    ensures forall e :: e in es' ==> e in es
  {
    hide KeyOf, Indexed;
    PositionOf(KeysOf(es), ix, key);
    es', ix' := es, ix;
    var position := ix[key];
    var last := |es| - 1;
    if position < last {
      var lastKey := KeyOf(es[last]);
      es' := es'[position := es'[last]];
      ix' := ix'[lastKey := position];
    }
    es' := es'[..last];
    ix' := ix' - {key};
    assert es' == SwapPop(es, position);
    assert KeysOf(es') == SwapPop(KeysOf(es), position);
  }

  /** The vector and the index built afresh without one backend's endpoints. */
  method Rebuild(es: seq<Endpoint>, ix: Index<string>, backend: string)
    returns (kept: seq<Endpoint>, keptIndex: Index<string>, removed: nat)
    requires Indexed(KeysOf(es), ix)
    ensures kept == WithoutBackend(es, backend) && Indexed(KeysOf(kept), keptIndex)
    ensures removed == |es| - |kept|
  {
    hide KeyOf, KeysOf, Indexed, View, WithoutBackend;
    EmptyIndexed();
    kept, keptIndex, removed := [], map[], 0;
    assert kept == WithoutBackend(es[..0], backend) by {
      WithoutNothing(backend);
    }
    for i := 0 to |es|
      invariant kept == WithoutBackend(es[..i], backend) && Indexed(KeysOf(kept), keptIndex)
      invariant removed + |kept| == i
    {
      var e := es[i];
      WithoutStep(es, i, backend);
      if e.backend != backend {
        KeyIsFresh(es, ix, i, kept, keptIndex);
        Append(KeysOf(kept), kept, keptIndex, KeyOf(e), e);
        assert KeysOf(kept + [e]) == KeysOf(kept) + [KeyOf(e)];
        keptIndex := keptIndex[KeyOf(e) := |kept|];
        kept := kept + [e];
      } else {
        removed := removed + 1;
      }
    }
    assert es[..|es|] == es;
  }

  lemma WithoutNothing(backend: string)
    ensures WithoutBackend([], backend) == []
  {
  }

  lemma WithoutStep(es: seq<Endpoint>, i: nat, backend: string)
    requires i < |es|
    ensures WithoutBackend(es[..i + 1], backend) ==
            if es[i].backend != backend then WithoutBackend(es[..i], backend) + [es[i]] else WithoutBackend(es[..i], backend)
  {
    assert es[..i + 1][..i] == es[..i] && es[..i + 1][i] == es[i];
  }

  lemma EmptyIndexed()
    ensures Indexed(KeysOf([]), map[])
  {
  }

  lemma KeyIsFresh(es: seq<Endpoint>, ix: Index<string>, i: nat, kept: seq<Endpoint>, keptIndex: Index<string>)
    requires Indexed(KeysOf(es), ix) && i < |es| && Indexed(KeysOf(kept), keptIndex)
    requires forall e :: e in kept ==> e in es[..i]
    ensures KeyOf(es[i]) !in keptIndex
  {
    hide KeyOf;
    var k := KeyOf(es[i]);
    assert KeysOf(es)[i] == k;
    forall e | e in kept ensures KeyOf(e) != k {
      var j :| 0 <= j < i && es[..i][j] == e;
      assert KeysOf(es)[j] == KeyOf(e);
    }
    PositionOf(KeysOf(kept), keptIndex, k);
  }
}
