/**
 A registration as the protocol documents it: the JSON object a backend sends for its endpoints, and
 the theorem that the gateway reads exactly those endpoints out of it.
 */
module RegistrationWriting {
  import opened Text
  import opened Json
  import opened JsonReader
  import opened ParameterSchema
  import opened Endpoints
  import opened RoutingTable
  import opened Registration
  import opened Frames
  import opened Backends
  import opened GatewayServer
  import FrameProtocol

  // ---------------------------------------------------------------- objects with optional members

  /** A key, and the value it is given if any. */
  datatype Field = Field(key: string, value: Option<Value>)

  function Written(fs: seq<Field>): seq<Member> {
    if fs == [] then []
    else
      var n := |fs| - 1;
      Written(fs[..n]) + (if fs[n].value.Some? then [Member(fs[n].key, fs[n].value.value)] else [])
  }

  predicate DistinctFields(fs: seq<Field>) {
    forall i, j :: 0 <= i < j < |fs| ==> fs[i].key != fs[j].key
  }

  /** Some field gives this key this value. */
  predicate Gives(fs: seq<Field>, m: Member) {
    exists i :: 0 <= i < |fs| && fs[i] == Field(m.key, Some(m.value))
  }

  lemma GivesStep(fs: seq<Field>, m: Member)
    requires fs != []
    ensures var n := |fs| - 1; Gives(fs, m) <==> Gives(fs[..n], m) || fs[n] == Field(m.key, Some(m.value))
  {
    var n := |fs| - 1;
    if Gives(fs[..n], m) {
      var i :| 0 <= i < n && fs[..n][i] == Field(m.key, Some(m.value));
      assert fs[i] == Field(m.key, Some(m.value));
    }
    if Gives(fs, m) {
      var i :| 0 <= i < |fs| && fs[i] == Field(m.key, Some(m.value));
      assert i < n ==> fs[..n][i] == fs[i];
    }
  }

  /** Only given keys are written, once, with their values. */
  lemma {:induction false} WrittenMembers(fs: seq<Field>)
    requires DistinctFields(fs)
    ensures UniqueKeys(Written(fs))
    ensures forall m :: m in Written(fs) <==> Gives(fs, m)
  {
    if fs != [] {
      var n := |fs| - 1;
      WrittenMembers(fs[..n]);
      var before := Written(fs[..n]);
      forall i | 0 <= i < |before| ensures before[i].key != fs[n].key {
        assert before[i] in before;
        assert Gives(fs[..n], before[i]);
      }
      hide Gives;
      forall m ensures m in Written(fs) <==> Gives(fs, m) {
        GivesStep(fs, m);
      }
    }
  }

  /** Looking a key up finds what it was given, and nothing if it was given nothing. */
  lemma FieldIsRead(fs: seq<Field>, i: nat)
    requires DistinctFields(fs) && i < |fs|
    ensures var v := Object(Written(fs));
            && (Has(v, fs[i].key) <==> fs[i].value.Some?)
            && (fs[i].value.Some? ==> MemberOf(v, fs[i].key) == fs[i].value.value)
  {
    hide Written, IndexOf;
    WrittenMembers(fs);
    var ms, key := Written(fs), fs[i].key;
    var j := IndexOf(ms, key);
    if j < |ms| {
      assert ms[j] in ms;
    }
    if fs[i].value.Some? {
      assert Member(key, fs[i].value.value) in ms;
    }
  }

  predicate WholeFields(fs: seq<Field>) {
    forall i :: 0 <= i < |fs| && fs[i].value.Some? ==> Whole(fs[i].value.value)
  }

  lemma WrittenIsWhole(fs: seq<Field>)
    requires DistinctFields(fs) && WholeFields(fs)
    ensures Whole(Object(Written(fs)))
  {
    WrittenMembers(fs);
    var ms := Written(fs);
    forall i | 0 <= i < |ms| ensures Whole(ms[i].value) {
      assert ms[i] in ms;
    }
  }

  // ---------------------------------------------------------------- what a backend writes

  function KindName(kind: ParameterType): string {
    match kind
    case StringType => "string"
    case IntegerType => "integer"
    case FloatType => "float"
    case BooleanType => "boolean"
    case ObjectType => "object"
    case ArrayType => "array"
  }

  function PlaceName(location: Location): string {
    match location
    case InPath => "path"
    case InQuery => "query"
    case InHeader => "header"
    case InBody => "body"
  }

  function NumberField(key: string, n: Option<int>): Field {
    Field(key, if n.Some? then Some(Integer(n.value)) else None)
  }

  function Strings(ss: seq<string>): (vs: seq<Value>)
    ensures |vs| == |ss| && forall i :: 0 <= i < |ss| ==> vs[i] == String(ss[i])
  {
    seq(|ss|, i requires 0 <= i < |ss| => String(ss[i]))
  }

  function ConstraintFields(c: Constraints): seq<Field> {
    [NumberField("min_value", c.minValue), NumberField("max_value", c.maxValue),
     NumberField("min_length", c.minLength), NumberField("max_length", c.maxLength),
     Field("pattern", if c.pattern.Some? then Some(String(c.pattern.value)) else None),
     Field("allowed_values", Some(Array(Strings(c.allowedValues))))]
  }

  function SchemaFields(s: Schema): seq<Field> {
    [Field("name", Some(String(s.name))), Field("type", Some(String(KindName(s.kind)))),
     Field("location", Some(String(PlaceName(s.location)))), Field("required", Some(Boolean(s.required))),
     Field("description", Some(String(s.description))), Field("default", Some(String(s.defaultValue))),
     Field("constraints", Some(Object(Written(ConstraintFields(s.constraints)))))]
  }

  function SchemaObject(s: Schema): Value {
    Object(Written(SchemaFields(s)))
  }

  function SchemaObjects(ss: seq<Schema>): (vs: seq<Value>)
    ensures |vs| == |ss| && forall i :: 0 <= i < |ss| ==> vs[i] == SchemaObject(ss[i])
  {
    seq(|ss|, i requires 0 <= i < |ss| => SchemaObject(ss[i]))
  }

  function EndpointFields(e: Endpoint): seq<Field> {
    [Field("path", Some(String(e.path))), Field("method", Some(String(MethodName(e.verb)))),
     Field("description", Some(String(e.description))), Field("requires_auth", Some(Boolean(e.requiresAuth))),
     Field("parameters", Some(Array(SchemaObjects(e.schemas))))]
  }

  function EndpointObject(e: Endpoint): Value {
    Object(Written(EndpointFields(e)))
  }

  function EndpointObjects(es: seq<Endpoint>): (vs: seq<Value>)
    ensures |vs| == |es| && forall i :: 0 <= i < |es| ==> vs[i] == EndpointObject(es[i])
  {
    seq(|es|, i requires 0 <= i < |es| => EndpointObject(es[i]))
  }

  function RegistrationFields(id: string, es: seq<Endpoint>): seq<Field> {
    [Field("backend_id", Some(String(id))), Field("endpoints", Some(Array(EndpointObjects(es))))]
  }

  function RegistrationObject(id: string, es: seq<Endpoint>): Value {
    Object(Written(RegistrationFields(id, es)))
  }

  // ---------------------------------------------------------------- what can be written

  predicate ConstraintsOk(c: Constraints) {
    && (c.minValue.Some? ==> IsInt64(c.minValue.value)) && (c.maxValue.Some? ==> IsInt64(c.maxValue.value))
    && (c.minLength.Some? ==> 0 <= c.minLength.value < 0x1_0000_0000)
    && (c.maxLength.Some? ==> 0 <= c.maxLength.value < 0x1_0000_0000)
  }

  /** A schema the program can hold: it is named, and its numbers fit their fields. */
  predicate SchemaOk(s: Schema) {
    s.name != "" && ConstraintsOk(s.constraints)
  }

  /** An endpoint as `Build` leaves it, not yet under any backend. */
  predicate Definable(e: Endpoint) {
    Built(e) && IsValid(e) && e.backend == "" && forall i :: 0 <= i < |e.schemas| ==> SchemaOk(e.schemas[i])
  }

  // ---------------------------------------------------------------- keys are distinct

  const NoSchema := Schema("", StringType, InPath, false, "", "", NoConstraints)
  const NoEndpoint := Endpoint("", Unknown, "", "", false, [], [], [], [])

  lemma KeysAreDistinct(c: Constraints, s: Schema, e: Endpoint, id: string, es: seq<Endpoint>)
    ensures DistinctFields(ConstraintFields(c)) && DistinctFields(SchemaFields(s))
    ensures DistinctFields(EndpointFields(e)) && DistinctFields(RegistrationFields(id, es))
  {
    hide Written, Strings, SchemaObjects, EndpointObjects, KindName, PlaceName, MethodName;
    assert "min_value" != "max_value" by { assert "min_value"[1] != "max_value"[1]; }
    assert "min_length" != "max_length" by { assert "min_length"[1] != "max_length"[1]; }
    assert "min_value" != "max_length" && "min_length" != "max_value";
    assert "description" != "constraints" by { assert "description"[0] != "constraints"[0]; }
    assert "requires_auth" != "description" by { assert "requires_auth"[0] != "description"[0]; }
  }

  // ---------------------------------------------------------------- reading back

  lemma StringsAreWhole(ss: seq<string>)
    ensures Whole(Array(Strings(ss)))
  {
    forall i | 0 <= i < |ss| ensures Whole(Strings(ss)[i]) {
      assert Strings(ss)[i] == String(ss[i]);
    }
  }

  lemma ConstraintsAreWhole(c: Constraints)
    requires ConstraintsOk(c) && DistinctFields(ConstraintFields(c))
    ensures Whole(Object(Written(ConstraintFields(c))))
  {
    hide Written, DistinctFields;
    StringsAreWhole(c.allowedValues);
    assert WholeFields(ConstraintFields(c));
    WrittenIsWhole(ConstraintFields(c));
  }

  lemma ConstraintsAreRead(c: Constraints)
    requires ConstraintsOk(c) && DistinctFields(ConstraintFields(c))
    ensures ReadConstraints(Object(Written(ConstraintFields(c))), NoConstraints) == c
  {
    hide Written, Has, MemberOf, DistinctFields;
    var fs := ConstraintFields(c);
    FieldIsRead(fs, 0);
    FieldIsRead(fs, 1);
    FieldIsRead(fs, 2);
    FieldIsRead(fs, 3);
    FieldIsRead(fs, 4);
    FieldIsRead(fs, 5);
    assert [] + Texts(Strings(c.allowedValues)) == c.allowedValues;
  }

  lemma SchemaIsWhole(s: Schema)
    requires SchemaOk(s)
    ensures Whole(SchemaObject(s))
  {
    hide Written, DistinctFields, ConstraintFields, ConstraintsOk;
    KeysAreDistinct(s.constraints, s, NoEndpoint, "", []);
    ConstraintsAreWhole(s.constraints);
    WrittenIsWhole(SchemaFields(s));
  }

  lemma SchemaIsRead(s: Schema, before: Schema)
    requires SchemaOk(s) && IsBlank(before)
    ensures ReadSchema(SchemaObject(s), before) == Done(s)
  {
    hide Written, Has, MemberOf, DistinctFields, ConstraintsOk, ReadConstraints, ConstraintFields;
    hide KindOf, LocationOf, KindName, PlaceName;
    var fs := SchemaFields(s);
    KeysAreDistinct(s.constraints, s, NoEndpoint, "", []);
    ConstraintsAreRead(s.constraints);
    NamesAreRead(s, before);
    FieldIsRead(fs, 0);
    FieldIsRead(fs, 1);
    FieldIsRead(fs, 2);
    FieldIsRead(fs, 3);
    FieldIsRead(fs, 4);
    FieldIsRead(fs, 5);
    FieldIsRead(fs, 6);
  }

  lemma NamesAreRead(s: Schema, before: Schema)
    ensures KindOf(KindName(s.kind), before.kind) == s.kind
    ensures LocationOf(PlaceName(s.location), before.location) == s.location
  {
  }

  lemma {:induction false} SchemasAreRead(ss: seq<Schema>, blank: int -> Schema)
    requires forall i :: 0 <= i < |ss| ==> SchemaOk(ss[i])
    requires forall i :: IsBlank(blank(i))
    ensures ReadSchemas(SchemaObjects(ss), blank) == ss
    ensures AllWhole(SchemaObjects(ss))
  {
    hide ReadSchema, SchemaObject, SchemaOk, Whole, IsBlank;
    if ss != [] {
      var n := |ss| - 1;
      SchemasAreRead(ss[..n], blank);
      assert SchemaObjects(ss)[..n] == SchemaObjects(ss[..n]);
      SchemaIsRead(ss[n], blank(n));
      SchemaIsWhole(ss[n]);
      assert ss == ss[..n] + [ss[n]];
      assert forall i :: 0 <= i < n ==> SchemaObjects(ss)[i] == SchemaObjects(ss[..n])[i];
    }
  }

  lemma EndpointIsWhole(e: Endpoint)
    requires AllWhole(SchemaObjects(e.schemas))
    ensures Whole(EndpointObject(e))
  {
    hide Written, DistinctFields, SchemaObjects, MethodName;
    KeysAreDistinct(NoConstraints, NoSchema, e, "", []);
    WrittenIsWhole(EndpointFields(e));
  }

  lemma EndpointIsDescribed(e: Endpoint)
    ensures var v := EndpointObject(e);
            && v.Object? && ParameterValues(v) == SchemaObjects(e.schemas)
            && Described(v, e.schemas) == e.(backend := "", segments := [], isParameter := [], names := [])
  {
    hide Written, Has, MemberOf, DistinctFields, SchemaObjects, MethodOf, MethodName;
    var fs := EndpointFields(e);
    KeysAreDistinct(NoConstraints, NoSchema, e, "", []);
    MethodNameInverse(e.verb);
    FieldIsRead(fs, 0);
    FieldIsRead(fs, 1);
    FieldIsRead(fs, 2);
    FieldIsRead(fs, 3);
    FieldIsRead(fs, 4);
  }

  lemma EndpointIsRead(e: Endpoint, blank: int -> Schema)
    requires Definable(e)
    requires forall i :: IsBlank(blank(i))
    ensures ReadEndpoint(EndpointObject(e), blank) == Done(e)
    ensures Whole(EndpointObject(e))
  {
    hide EndpointObject, ParameterValues, Described, ReadSchemas, Split, Built, AllWhole, IsBlank, SchemaOk;
    SchemasAreRead(e.schemas, blank);
    EndpointIsWhole(e);
    EndpointIsDescribed(e);
    var d := Described(EndpointObject(e), e.schemas);
    SplitKeeps(d);
    BuiltIsUnique(Split(d), e);
  }

  lemma SplitKeeps(d: Endpoint)
    ensures var r := Split(d); r == d.(segments := r.segments, isParameter := r.isParameter, names := r.names)
  {
  }

  lemma {:induction false} EndpointsAreRead(es: seq<Endpoint>, blanks: int -> int -> Schema)
    requires forall i :: 0 <= i < |es| ==> Definable(es[i])
    requires forall i, j :: IsBlank(blanks(i)(j))
    ensures ReadEndpoints(EndpointObjects(es), blanks) == es
    ensures AllWhole(EndpointObjects(es))
  {
    hide ReadEndpoint, EndpointObject, Definable, Whole, IsBlank;
    if es != [] {
      var n := |es| - 1;
      EndpointsAreRead(es[..n], blanks);
      assert EndpointObjects(es)[..n] == EndpointObjects(es[..n]);
      EndpointIsRead(es[n], blanks(n));
      assert es == es[..n] + [es[n]];
      assert forall i :: 0 <= i < n ==> EndpointObjects(es)[i] == EndpointObjects(es[..n])[i];
    }
  }

  lemma RegistrationIsRead(id: string, es: seq<Endpoint>, blanks: int -> int -> Schema)
    requires forall i :: 0 <= i < |es| ==> Definable(es[i])
    requires forall i, j :: IsBlank(blanks(i)(j))
    ensures var v := RegistrationObject(id, es);
            Whole(v) && v.Object? && BackendId(v) == id && ReadEndpoints(EndpointValues(v), blanks) == es
  {
    hide Written, Has, MemberOf, DistinctFields, ReadEndpoints, EndpointObjects, Definable, IsBlank;
    var fs := RegistrationFields(id, es);
    KeysAreDistinct(NoConstraints, NoSchema, NoEndpoint, id, es);
    EndpointsAreRead(es, blanks);
    WrittenIsWhole(fs);
    FieldIsRead(fs, 0);
    FieldIsRead(fs, 1);
  }

  /**
   From a backend's endpoints to the gateway's registration event: whatever endpoints a backend
   writes in the documented form, the frame that carries the text is understood as the registration
   of exactly these endpoints, through the parse of the payload and two serializations and parses
   inside. The unset fields of the program's schema objects do not show.
   */
  lemma RegistrationArrives(fp: Doubles, fd: int, request: int, id: string, es: seq<Endpoint>, blanks: int -> int -> Schema)
    requires id != "" && forall i :: 0 <= i < |es| ==> Definable(es[i])
    requires forall i, j :: IsBlank(blanks(i)(j))
    ensures var text := Serialize(fp, RegistrationObject(id, es));
            EventOf(fp, fd, Frame(0, request, |text|, text), blanks) == Understood(Some(Registered(fd, id, es)), false)
  {
    RegistrationIsRead(id, es, blanks);
    hide Serialize, ReadText, EventOf, ReadEndpoints, EndpointValues, BackendId;
    var v := RegistrationObject(id, es);
    WholeSurvives(fp, v);
    RegistrationUnderstood(fp, fd, Frame(REGISTRATION, request, |Serialize(fp, v)|, Serialize(fp, v)), blanks);
  }

  /**
   From the frame to the routes: on a live server whose table has room, a disciplined registration
   leaves every endpoint of the backend routed to the connection it came from.
   */
  lemma RegistrationTakesEffect(fp: Doubles, w: World, w': World, fd: int, request: int, id: string, es: seq<Endpoint>,
                                blanks: int -> int -> Schema, e: Event, i: nat)
    requires id != "" && forall i :: 0 <= i < |es| ==> Definable(es[i])
    requires forall i, j :: IsBlank(blanks(i)(j))
    requires var text := Serialize(fp, RegistrationObject(id, es));
             EventOf(fp, fd, Frame(0, request, |text|, text), blanks).event == Some(e)
    requires Live(w) && Disciplined(w, e) && Steps(w, e, w') && |w.routes| + |es| <= 4096
    requires i < |es| && forall j :: i < j < |es| ==> es[j].verb != es[i].verb || es[j].path != es[i].path
    ensures Live(w') && id in w'.descriptors && w'.descriptors[id] == fd && fd in w'.connections && w'.connections[fd] == id
    ensures var k := RouteKey(es[i].verb, es[i].path); k in w'.routes && w'.routes[k] == es[i].(backend := id)
  {
    RegistrationArrives(fp, fd, request, id, es, blanks);
    hide EventOf, RegistrationObject, Serialize, RouteKey, AddAll, Live, Disciplined;
    assert e == Registered(fd, id, es);
    StepKeepsLive(w, e, w');
    RegisteredIsRouted(w.routes, id, es, i);
  }

  // ---------------------------------------------------------------- the other frames

  /** An unregistration as documented: an object that names the backend, and may say more. */
  lemma UnregistrationArrives(fp: Doubles, fd: int, request: int, v: Value, id: string, blanks: int -> int -> Schema)
    requires v.Object? && Whole(v) && Has(v, "backend_id") && MemberOf(v, "backend_id") == String(id)
    ensures var text := Serialize(fp, v);
            EventOf(fp, fd, Frame(1, request, |text|, text), blanks) == Understood(Some(Unregistered(fd, id)), false)
  {
    WholeSurvives(fp, v);
    hide Serialize, ReadText, Has, MemberOf, Whole;
  }

  /** For example the documented object with nothing else in it. */
  lemma PlainUnregistration(fp: Doubles, fd: int, request: int, id: string, blanks: int -> int -> Schema)
    ensures var text := Serialize(fp, Object([Member("backend_id", String(id))]));
            EventOf(fp, fd, Frame(1, request, |text|, text), blanks) == Understood(Some(Unregistered(fd, id)), false)
  {
    var v := Object([Member("backend_id", String(id))]);
    assert IndexOf(v.members, "backend_id") == 0;
    assert Sound(v.members[0].value) && FloatFree(v.members[0].value);
    UnregistrationArrives(fp, fd, request, v, id, blanks);
  }

  /** An error frame, the placeholder for an ended connection included, is a loss; no other kind changes anything. */
  lemma OtherFrames(fp: Doubles, fd: int, frame: Frame, blanks: int -> int -> Schema)
    ensures frame.kind == 7 ==> EventOf(fp, fd, frame, blanks) == Understood(Some(Lost(fd)), false)
    ensures EventOf(fp, fd, FrameProtocol.NO_FRAME, blanks) == Understood(Some(Lost(fd)), false)
    ensures frame.kind != 0 && frame.kind != 1 && frame.kind != 7 ==> EventOf(fp, fd, frame, blanks) == Understood(None, false)
  {
    hide ReadText, ParseEndpoints;
  }

  /** What is not understood changes nothing: no JSON, no object, no identifier; for a registration no empty one either. */
  lemma NotUnderstood(fp: Doubles, fd: int, frame: Frame, blanks: int -> int -> Schema)
    requires frame.kind == 0 || frame.kind == 1
    ensures ReadText(fp, frame.payload).Throw? ==> EventOf(fp, fd, frame, blanks) == Understood(None, true)
    ensures ReadText(fp, frame.payload).Fail? ==> EventOf(fp, fd, frame, blanks) == Understood(None, false)
    ensures ReadText(fp, frame.payload).Ok? ==>
              var v := ReadText(fp, frame.payload).value;
              !Has(v, "backend_id") || (frame.kind == 0 && MemberOf(v, "backend_id") == String("")) ==>
                EventOf(fp, fd, frame, blanks) == Understood(None, false)
  {
    hide ReadText, ParseEndpoints, MemberOf, Has;
  }

  /**
   From the frame to the routes: an unregistration, or an error frame, on a live server from a
   disciplined backend leaves no route of that backend, and every other route as it was.
   */
  lemma DepartureTakesEffect(fp: Doubles, w: World, w': World, fd: int, frame: Frame, id: string,
                             v: Value, blanks: int -> int -> Schema, e: Event)
    requires fd in w.connections && w.connections[fd] == id
    requires || frame.kind == 7
             || (frame.kind == 1 && frame.payload == Serialize(fp, v) && v.Object? && Whole(v)
                 && Has(v, "backend_id") && MemberOf(v, "backend_id") == String(id))
    requires Live(w) && (EventOf(fp, fd, frame, blanks).event == Some(e) ==> Steps(w, e, w'))
    ensures EventOf(fp, fd, frame, blanks).event.Some?
    ensures EventOf(fp, fd, frame, blanks).event == Some(e) ==>
              && Disciplined(w, e) && Live(w') && fd !in w'.connections && id !in w'.descriptors
              && (forall k :: k in w'.routes ==> w'.routes[k].backend != id)
              && (forall k :: k in w.routes && w.routes[k].backend != id ==> k in w'.routes && w'.routes[k] == w.routes[k])
  {
    hide Steps, Live, Whole, Has, MemberOf, Serialize;
    if frame.kind == 7 {
      OtherFrames(fp, fd, frame, blanks);
    } else {
      UnregistrationArrives(fp, fd, frame.id, v, id, blanks);
      LengthIsUnread(fp, fd, frame, blanks);
    }
    hide EventOf;
    if EventOf(fp, fd, frame, blanks).event == Some(e) {
      StepKeepsLive(w, e, w');
      GoneWithoutTrace(w, e, w');
    }
  }

  /** The length field is not looked at again. */
  lemma LengthIsUnread(fp: Doubles, fd: int, frame: Frame, blanks: int -> int -> Schema)
    ensures EventOf(fp, fd, frame, blanks)
            == EventOf(fp, fd, Frame(frame.kind, frame.id, |frame.payload|, frame.payload), blanks)
  {
    hide ReadText, ParseEndpoints;
  }

  // ---------------------------------------------------------------- members that are left out

  /** A parameter that leaves members out: not required, and without description, default and constraints. */
  lemma AbsentSchemaMembers(v: Value, before: Schema)
    requires v.Object? && IsBlank(before) && MemberOf(v, "name").String? && MemberOf(v, "name").text != ""
    ensures ReadSchema(v, before).Done?
    ensures var s := ReadSchema(v, before).value;
            && s.name == MemberOf(v, "name").text
            && (!Has(v, "required") ==> !s.required)
            && (!Has(v, "description") ==> s.description == "")
            && (!Has(v, "default") ==> s.defaultValue == "")
            && (!Has(v, "constraints") || MemberOf(v, "constraints") == Object([]) ==>
                  s.constraints == Constraints(None, None, None, None, None, []))
            && (!Has(v, "type") ==> s.kind == before.kind) && (!Has(v, "location") ==> s.location == before.location)
  {
    hide KindOf, LocationOf;
  }

  /** Members of another type than the documented one count as the empty text, zero, or false; they are not refused. */
  lemma WrongTypes(v: Value, before: Schema)
    requires v.Object? && IsBlank(before) && MemberOf(v, "name").String? && MemberOf(v, "name").text != ""
    ensures ReadSchema(v, before).Done?
    ensures var s := ReadSchema(v, before).value;
            && (Has(v, "required") && !MemberOf(v, "required").Boolean? ==> !s.required)
            && (Has(v, "description") && !MemberOf(v, "description").String? ==> s.description == "")
            && (Has(v, "default") && !MemberOf(v, "default").String? ==> s.defaultValue == "")
            && (Has(v, "type") && !MemberOf(v, "type").String? ==> s.kind == before.kind)
            && (Has(v, "location") && !MemberOf(v, "location").String? ==> s.location == before.location)
            && (Has(v, "constraints") && !MemberOf(v, "constraints").Object? ==>
                  s.constraints == Constraints(None, None, None, None, None, []))
  {
    GivenIsThere(v, "name");
    NoSuchName(before);
    hide KindOf, LocationOf, Has, MemberOf;
  }

  lemma GivenIsThere(v: Value, key: string)
    ensures MemberOf(v, key) != Null ==> Has(v, key)
  {
  }

  lemma NoSuchName(before: Schema)
    ensures KindOf("", before.kind) == before.kind && LocationOf("", before.location) == before.location
  {
  }

  lemma WrongConstraintTypes(v: Value, key: string, before: Constraints)
    requires v.Object? ==> Has(v, key)
    ensures !v.Object? ==> ReadConstraints(v, before) == before
    ensures v.Object? ==>
            var c := ReadConstraints(v, before);
            && (key == "min_value" && !MemberOf(v, key).Integer? ==> c.minValue == Some(0))
            && (key == "max_value" && !MemberOf(v, key).Integer? ==> c.maxValue == Some(0))
            && (key == "min_length" && !MemberOf(v, key).Integer? ==> c.minLength == Some(0))
            && (key == "max_length" && !MemberOf(v, key).Integer? ==> c.maxLength == Some(0))
            && (key == "pattern" && !MemberOf(v, key).String? ==> c.pattern == Some(""))
            && (key == "allowed_values" && !MemberOf(v, key).Array? ==> c.allowedValues == before.allowedValues)
            && (key == "allowed_values" && MemberOf(v, key).Array? ==>
                  && |c.allowedValues| == |before.allowedValues| + |MemberOf(v, key).elements|
                  && before.allowedValues <= c.allowedValues
                  && forall i :: 0 <= i < |MemberOf(v, key).elements| ==>
                       var e := MemberOf(v, key).elements[i];
                       c.allowedValues[|before.allowedValues| + i] == if e.String? then e.text else "")
  {
    hide Has, MemberOf;
  }

  /** A type or a location that is none of the documented words leaves what was there. */
  lemma OtherWordsKeep(name: string, kind: ParameterType, location: Location)
    ensures name != "string" && name != "integer" && name != "float" && name != "boolean" && name != "object" && name != "array" ==>
              KindOf(name, kind) == kind
    ensures name != "path" && name != "query" && name != "header" && name != "body" ==> LocationOf(name, location) == location
  {
  }

  /** A parameter without a name is refused. */
  lemma NamelessRefused(v: Value, before: Schema)
    requires IsBlank(before) && (!v.Object? || !Has(v, "name") || MemberOf(v, "name") == String(""))
    ensures ReadSchema(v, before) == Refused
  {
    hide KindOf, LocationOf, ReadConstraints, Has, MemberOf;
  }

  /** An endpoint that leaves members out is not protected, and has no description and no parameters; method and path it must give. */
  lemma AbsentEndpointMembers(v: Value, blank: int -> Schema)
    requires v.Object?
    ensures ReadEndpoint(v, blank).Done? <==>
              && MemberOf(v, "path").String? && MemberOf(v, "path").text != ""
              && MemberOf(v, "method").String? && MethodOf(MemberOf(v, "method").text) != Unknown
    ensures ReadEndpoint(v, blank).Done? ==>
              var e := ReadEndpoint(v, blank).value;
              && e.path == MemberOf(v, "path").text && e.backend == ""
              && (!Has(v, "requires_auth") ==> !e.requiresAuth)
              && (!Has(v, "description") ==> e.description == "")
              && (!Has(v, "parameters") ==> e.schemas == [])
  {
    hide Segments, ReadSchemas, IsPlaceholder, PlaceholderName, IndexOf;
    NoSchemas(blank);
    assert MethodOf("") == Unknown;
  }

  lemma NoSchemas(blank: int -> Schema)
    ensures ReadSchemas([], blank) == []
  {
  }

  /** A length bound is stored as an unsigned 32-bit number; a negative one wraps around. */
  lemma LengthBoundsWrap(v: Value, key: string)
    requires v.Object? && (key == "min_length" || key == "max_length") && Has(v, key) && MemberOf(v, key).Integer?
    ensures var c := ReadConstraints(v, NoConstraints);
            var n := if key == "min_length" then c.minLength else c.maxLength;
            && n.Some? && 0 <= n.value < 4294967296
            && (n.value - MemberOf(v, key).number) % 4294967296 == 0
  {
    hide Has, MemberOf, Texts, TextOf;
    var number := MemberOf(v, key).number;
    assert ToUint32(number) - number == -4294967296 * (number / 4294967296);
    DivMod(-(number / 4294967296), 4294967296, 0);
  }
}
