/**
 Decoding a registration: the endpoint definitions and parameter schemas a backend sends.

 The program takes an endpoint out of the parsed registration, serializes it, and parses the text
 again; inside, it does the same with every parameter. The definitions here are first read
 directly from the parsed tree (`ReadEndpoint`, `ReadSchema`) and then through the two detours.
 */
module Registration {
  import opened Text
  import opened Json
  import opened JsonReader
  import opened JsonRoundTrip
  import opened JsonParsing
  import opened ParameterSchema
  import opened Endpoints

  /** Reading may succeed, be refused, or raise an exception in the JSON parser. */
  datatype Attempt<T> = Done(value: T) | Refused | Raised

  // ---------------------------------------------------------------- reading a tree

  function KindOf(name: string, before: ParameterType): ParameterType {
    if name == "string" then StringType
    else if name == "integer" then IntegerType
    else if name == "float" then FloatType
    else if name == "boolean" then BooleanType
    else if name == "object" then ObjectType
    else if name == "array" then ArrayType
    else before
  }

  function LocationOf(name: string, before: Location): Location {
    if name == "path" then InPath
    else if name == "query" then InQuery
    else if name == "header" then InHeader
    else if name == "body" then InBody
    else before
  }

  /** A conversion to an unsigned 32-bit number. */
  function ToUint32(n: int): (u: int)
    ensures 0 <= u < 0x1_0000_0000
  {
    n % 0x1_0000_0000
  }

  function Texts(vs: seq<Value>): seq<string> {
    seq(|vs|, i requires 0 <= i < |vs| => TextOf(vs[i]))
  }

  function ReadConstraints(v: Value, before: Constraints): Constraints {
    if !v.Object? then before
    else
      Constraints(
        if Has(v, "min_value") then Some(NumberOf(MemberOf(v, "min_value"))) else before.minValue,
        if Has(v, "max_value") then Some(NumberOf(MemberOf(v, "max_value"))) else before.maxValue,
        if Has(v, "min_length") then Some(ToUint32(NumberOf(MemberOf(v, "min_length")))) else before.minLength,
        if Has(v, "max_length") then Some(ToUint32(NumberOf(MemberOf(v, "max_length")))) else before.maxLength,
        if Has(v, "pattern") then Some(TextOf(MemberOf(v, "pattern"))) else before.pattern,
        if Has(v, "allowed_values") && MemberOf(v, "allowed_values").Array?
        then before.allowedValues + Texts(MemberOf(v, "allowed_values").elements)
        else before.allowedValues)
  }

  /**
   The schema an object describes. Fields it does not mention keep what the schema held before;
   the program passes a schema whose type and location were never set.
   */
  function SchemaFrom(v: Value, before: Schema): Schema {
    Schema(
      if Has(v, "name") then TextOf(MemberOf(v, "name")) else before.name,
      if Has(v, "type") then KindOf(TextOf(MemberOf(v, "type")), before.kind) else before.kind,
      if Has(v, "location") then LocationOf(TextOf(MemberOf(v, "location")), before.location) else before.location,
      if Has(v, "required") then FlagOf(MemberOf(v, "required")) else false,
      if Has(v, "description") then TextOf(MemberOf(v, "description")) else before.description,
      if Has(v, "default") then TextOf(MemberOf(v, "default")) else before.defaultValue,
      if Has(v, "constraints") then ReadConstraints(MemberOf(v, "constraints"), before.constraints) else before.constraints)
  }

  function ReadSchema(v: Value, before: Schema): (r: Attempt<Schema>)
    ensures !r.Raised?
  {
    if v.Object? && SchemaFrom(v, before).name != "" then Done(SchemaFrom(v, before)) else Refused
  }

  /** The schemas of a parameter list; refused ones are left out. `blank(i)` is the unset schema of turn `i`. */
  function ReadSchemas(vs: seq<Value>, blank: int -> Schema): seq<Schema> {
    if vs == [] then []
    else
      var n := |vs| - 1;
      var rest := ReadSchemas(vs[..n], blank);
      match ReadSchema(vs[n], blank(n))
      case Done(schema) => rest + [schema]
      case _ => rest
  }

  function ParameterValues(v: Value): seq<Value> {
    if Has(v, "parameters") && MemberOf(v, "parameters").Array? then MemberOf(v, "parameters").elements else []
  }

  /** The endpoint an object describes, before its path is split. */
  function Described(v: Value, schemas: seq<Schema>): Endpoint {
    Endpoint(
      if Has(v, "path") then TextOf(MemberOf(v, "path")) else "",
      if Has(v, "method") then MethodOf(TextOf(MemberOf(v, "method"))) else Unknown,
      "",
      if Has(v, "description") then TextOf(MemberOf(v, "description")) else "",
      if Has(v, "requires_auth") then FlagOf(MemberOf(v, "requires_auth")) else false,
      schemas, [], [], [])
  }

  function Split(e: Endpoint): (r: Endpoint)
    ensures Built(r)
  {
    var segments := Segments(e.path);
    e.(segments := segments,
       isParameter := seq(|segments|, i requires 0 <= i < |segments| => IsPlaceholder(segments[i])),
       names := seq(|segments|, i requires 0 <= i < |segments| => PlaceholderName(segments[i])))
  }

  function ReadEndpoint(v: Value, blank: int -> Schema): (r: Attempt<Endpoint>)
    ensures !r.Raised?
    ensures r.Done? ==> Built(r.value) && IsValid(r.value)
  {
    if !v.Object? then Refused
    else
      var e := Split(Described(v, ReadSchemas(ParameterValues(v), blank)));
      if IsValid(e) then Done(e) else Refused
  }

  function EndpointValues(v: Value): seq<Value> {
    if Has(v, "endpoints") && MemberOf(v, "endpoints").Array? then MemberOf(v, "endpoints").elements else []
  }

  /** The endpoints of a list; refused ones are left out. `blanks(i)` gives the unset schemas of endpoint `i`. */
  function ReadEndpoints(vs: seq<Value>, blanks: int -> int -> Schema): seq<Endpoint> {
    if vs == [] then []
    else
      var n := |vs| - 1;
      var rest := ReadEndpoints(vs[..n], blanks);
      match ReadEndpoint(vs[n], blanks(n))
      case Done(e) => rest + [e]
      case _ => rest
  }

  // ---------------------------------------------------------------- what a schema does not depend on

  predicate NamesType(v: Value) {
    Has(v, "type") && TextOf(MemberOf(v, "type")) in {"string", "integer", "float", "boolean", "object", "array"}
  }

  predicate NamesLocation(v: Value) {
    Has(v, "location") && TextOf(MemberOf(v, "location")) in {"path", "query", "header", "body"}
  }

  /** A schema that was never filled in: only its type and location are unpredictable. */
  predicate IsBlank(s: Schema) {
    s.name == "" && s.description == "" && s.defaultValue == "" && s.constraints == NoConstraints
  }

  /** A parameter that gives its type and location is read the same whatever the unset fields held. */
  lemma SchemaIsDetermined(v: Value, s: Schema, t: Schema)
    requires NamesType(v) && NamesLocation(v) && IsBlank(s) && IsBlank(t)
    ensures ReadSchema(v, s) == ReadSchema(v, t)
  {
    hide Has, MemberOf, TextOf, FlagOf, ReadConstraints;
    assert SchemaFrom(v, s) == SchemaFrom(v, t);
  }

  // ---------------------------------------------------------------- through serialized text

  function ParseSchema(fp: Doubles, text: string, before: Schema): Attempt<Schema> {
    match ReadText(fp, text)
    case Ok(v, _) => ReadSchema(v, before)
    case Fail(_, _) => Refused
    case Throw => Raised
  }

  /** The parameter list, each parameter serialized and parsed; `None` if that raised an exception. */
  function ParseSchemas(fp: Doubles, vs: seq<Value>, blank: int -> Schema): Option<seq<Schema>> {
    if vs == [] then Some([])
    else
      var n := |vs| - 1;
      match ParseSchemas(fp, vs[..n], blank)
      case None => None
      case Some(rest) =>
        match ParseSchema(fp, Serialize(fp, vs[n]), blank(n))
        case Done(schema) => Some(rest + [schema])
        case Refused => Some(rest)
        case Raised => None
  }

  function ParseEndpoint(fp: Doubles, text: string, blank: int -> Schema): (r: Attempt<Endpoint>)
    ensures r.Done? ==> Built(r.value) && IsValid(r.value)
  {
    match ReadText(fp, text)
    case Fail(_, _) => Refused
    case Throw => Raised
    case Ok(v, _) =>
      if !v.Object? then Refused
      else
        match ParseSchemas(fp, ParameterValues(v), blank)
        case None => Raised
        case Some(schemas) =>
          var e := Split(Described(v, schemas));
          if IsValid(e) then Done(e) else Refused
  }

  /** The definitions read from a list, up to the first that raised an exception if any did. */
  datatype Collected = Collected(endpoints: seq<Endpoint>, raised: bool)

  function ParseEndpoints(fp: Doubles, vs: seq<Value>, blanks: int -> int -> Schema): (r: Collected)
    ensures forall i :: 0 <= i < |r.endpoints| ==> Built(r.endpoints[i]) && IsValid(r.endpoints[i])
  {
    if vs == [] then Collected([], false)
    else
      var n := |vs| - 1;
      var before := ParseEndpoints(fp, vs[..n], blanks);
      if before.raised then before
      else
        match ParseEndpoint(fp, Serialize(fp, vs[n]), blanks(n))
        case Done(e) => before.(endpoints := before.endpoints + [e])
        case Refused => before
        case Raised => before.(raised := true)
  }

  // ---------------------------------------------------------------- nothing is lost on the way

  predicate Whole(v: Value) {
    Sound(v) && FloatFree(v)
  }

  predicate AllWhole(vs: seq<Value>) {
    forall i :: 0 <= i < |vs| ==> Whole(vs[i])
  }

  lemma MemberIsWhole(v: Value, key: string)
    requires Whole(v)
    ensures Whole(MemberOf(v, key))
    ensures MemberOf(v, key).Array? ==> AllWhole(MemberOf(v, key).elements)
  {
  }

  lemma {:induction false} SchemasSurvive(fp: Doubles, vs: seq<Value>, blank: int -> Schema)
    requires AllWhole(vs)
    ensures ParseSchemas(fp, vs, blank) == Some(ReadSchemas(vs, blank))
  {
    hide Serialize, ReadText, ReadSchema, Whole;
    if vs != [] {
      var n := |vs| - 1;
      SchemasSurvive(fp, vs[..n], blank);
      WholeSurvives(fp, vs[n]);
    }
  }

  lemma WholeSurvives(fp: Doubles, v: Value)
    requires Whole(v)
    ensures ReadText(fp, Serialize(fp, v)) == Ok(v, "")
  {
    SerializeThenParse(fp, v);
  }

  lemma EndpointSurvives(fp: Doubles, v: Value, blank: int -> Schema)
    requires Whole(v)
    ensures ParseEndpoint(fp, Serialize(fp, v), blank) == ReadEndpoint(v, blank)
  {
    hide Serialize, ReadText, ParseSchemas, ReadSchemas, Split, Described, Whole, AllWhole;
    WholeSurvives(fp, v);
    MemberIsWhole(v, "parameters");
    assert AllWhole(ParameterValues(v)) by {
      NoneIsWhole();
    }
    SchemasSurvive(fp, ParameterValues(v), blank);
  }

  lemma NoneIsWhole()
    ensures AllWhole([])
  {
  }

  lemma {:induction false} EndpointsSurvive(fp: Doubles, vs: seq<Value>, blanks: int -> int -> Schema)
    requires AllWhole(vs)
    ensures ParseEndpoints(fp, vs, blanks) == Collected(ReadEndpoints(vs, blanks), false)
  {
    hide Serialize, ParseEndpoint, ReadEndpoint, Whole;
    if vs != [] {
      var n := |vs| - 1;
      EndpointsSurvive(fp, vs[..n], blanks);
      EndpointSurvives(fp, vs[n], blanks(n));
    }
  }

  /**
   Registration decoding is lossless: whatever text a backend sends, if it parses and contains no
   floating point number, the definitions obtained through two serializations and two more parses
   are those written in the original tree, for any number of endpoints and parameters.
   */
  lemma RegistrationIsLossless(fp: Doubles, payload: string, blanks: int -> int -> Schema)
    requires ReadText(fp, payload).Ok? && FloatFree(ReadText(fp, payload).value)
    ensures var v := ReadText(fp, payload).value;
            ParseEndpoints(fp, EndpointValues(v), blanks) == Collected(ReadEndpoints(EndpointValues(v), blanks), false)
  {
    var v := ReadText(fp, payload).value;
    ReparseStable(fp, payload);
    hide ReadText, Sound, FloatFree, AllWhole;
    MemberIsWhole(v, "endpoints");
    NoneIsWhole();
    EndpointsSurvive(fp, EndpointValues(v), blanks);
  }

  // ---------------------------------------------------------------- when reading raises

  predicate RaisesAt(fp: Doubles, vs: seq<Value>, blanks: int -> int -> Schema, i: int) {
    0 <= i < |vs| && ParseEndpoint(fp, Serialize(fp, vs[i]), blanks(i)).Raised?
  }

  lemma ListStep(fp: Doubles, vs: seq<Value>, blanks: int -> int -> Schema)
    requires vs != []
    ensures var n := |vs| - 1; var before := ParseEndpoints(fp, vs[..n], blanks); var r := ParseEndpoints(fp, vs, blanks);
            && (r.raised <==> before.raised || RaisesAt(fp, vs, blanks, n))
            && (r.raised && !before.raised ==> r.endpoints == before.endpoints)
  {
    hide ParseEndpoint, Serialize;
  }

  /** A list of endpoints raises if and only if one of them does. */
  lemma {:induction false} ListRaises(fp: Doubles, vs: seq<Value>, blanks: int -> int -> Schema)
    ensures ParseEndpoints(fp, vs, blanks).raised <==> exists i :: RaisesAt(fp, vs, blanks, i)
    decreases |vs|
  {
    hide ParseEndpoint, Serialize;
    if vs != [] {
      var n := |vs| - 1;
      var init := vs[..n];
      ListRaises(fp, init, blanks);
      ListStep(fp, vs, blanks);
      hide ParseEndpoints;
      if i :| RaisesAt(fp, init, blanks, i) {
        assert RaisesAt(fp, vs, blanks, i);
      }
      if i :| RaisesAt(fp, vs, blanks, i) {
        assert i == n || RaisesAt(fp, init, blanks, i);
      }
    }
  }

  /** What is collected are the endpoints before the first that raises. */
  lemma FirstRaise(fp: Doubles, vs: seq<Value>, blanks: int -> int -> Schema, i: int)
    requires RaisesAt(fp, vs, blanks, i) && forall j :: RaisesAt(fp, vs, blanks, j) ==> i <= j
    ensures ParseEndpoints(fp, vs, blanks).endpoints == ParseEndpoints(fp, vs[..i], blanks).endpoints
  {
    hide ParseEndpoints, ParseEndpoint, Serialize;
    var init, upto := vs[..i], vs[..i + 1];
    ListRaises(fp, init, blanks);
    forall j ensures !RaisesAt(fp, init, blanks, j) {
      assert RaisesAt(fp, init, blanks, j) ==> RaisesAt(fp, vs, blanks, j);
    }
    assert upto[..i] == init && RaisesAt(fp, upto, blanks, i);
    ListStep(fp, upto, blanks);
    RaisedEndpointStays(fp, vs, blanks, i + 1);
  }

  /** A list of parameters raises if and only if the text of one of them makes the parser throw. */
  lemma {:induction false} ParametersRaise(fp: Doubles, vs: seq<Value>, blank: int -> Schema)
    ensures ParseSchemas(fp, vs, blank).None? <==> exists i :: 0 <= i < |vs| && ReadText(fp, Serialize(fp, vs[i])).Throw?
    decreases |vs|
  {
    hide ReadText, Serialize, ReadSchema;
    if vs != [] {
      var n := |vs| - 1;
      ParametersRaise(fp, vs[..n], blank);
      assert forall i :: 0 <= i < n ==> vs[..n][i] == vs[i];
    }
  }

  /** An endpoint raises if and only if its text makes the parser throw, or that of one of its parameters does. */
  lemma EndpointRaises(fp: Doubles, text: string, blank: int -> Schema)
    ensures ParseEndpoint(fp, text, blank).Raised? <==>
              || ReadText(fp, text).Throw?
              || (ReadText(fp, text).Ok? && ReadText(fp, text).value.Object?
                  && var vs := ParameterValues(ReadText(fp, text).value);
                     exists i :: 0 <= i < |vs| && ReadText(fp, Serialize(fp, vs[i])).Throw?)
  {
    hide ReadText, Serialize, ParameterValues, ParseSchemas, Described, Split;
    if ReadText(fp, text).Ok? {
      ParametersRaise(fp, ParameterValues(ReadText(fp, text).value), blank);
    }
  }

  // ---------------------------------------------------------------- the methods

  method ParseParameterSchemaFromJson(fp: Doubles, text: string, before: Schema) returns (r: Attempt<Schema>)
    ensures r == ParseSchema(fp, text, before)
  {
    hide SchemaFrom;
    var parser := new JsonParser(fp);
    var verdict, root := parser.Parse(text);
    match verdict {
      case Thrown => return Raised;
      case Rejected => return Refused;
      case Accepted =>
    }
    if root.Object? {
      var schema := FillSchema(root, before);
      if schema.name != "" {
        return Done(schema);
      }
    }
    return Refused;
  }

  /** The fields of a schema, filled one after the other over what they held before. */
  method FillSchema(root: Value, before: Schema) returns (schema: Schema)
    ensures schema == SchemaFrom(root, before)
  {
    hide Has, MemberOf, TextOf, FlagOf, KindOf, LocationOf, ReadConstraints;
    var name, kind, location, required := before.name, before.kind, before.location, false;
    if Has(root, "name") {
      name := TextOf(MemberOf(root, "name"));
    }
    if Has(root, "type") {
      kind := KindOf(TextOf(MemberOf(root, "type")), kind);
    }
    if Has(root, "location") {
      location := LocationOf(TextOf(MemberOf(root, "location")), location);
    }
    if Has(root, "required") {
      required := FlagOf(MemberOf(root, "required"));
    }
    schema := FillRest(root, Schema(name, kind, location, required, before.description, before.defaultValue, before.constraints));
  }

  method FillRest(root: Value, before: Schema) returns (schema: Schema)
    ensures schema == before.(
      description := if Has(root, "description") then TextOf(MemberOf(root, "description")) else before.description,
      defaultValue := if Has(root, "default") then TextOf(MemberOf(root, "default")) else before.defaultValue,
      constraints := if Has(root, "constraints") then ReadConstraints(MemberOf(root, "constraints"), before.constraints)
                     else before.constraints)
  {
    hide Has, MemberOf, TextOf, ReadConstraints;
    schema := before;
    if Has(root, "description") {
      schema := schema.(description := TextOf(MemberOf(root, "description")));
    }
    if Has(root, "default") {
      schema := schema.(defaultValue := TextOf(MemberOf(root, "default")));
    }
    if Has(root, "constraints") {
      var constraints := FillConstraints(MemberOf(root, "constraints"), schema.constraints);
      schema := schema.(constraints := constraints);
    }
  }

  method FillConstraints(v: Value, before: Constraints) returns (c: Constraints)
    ensures c == ReadConstraints(v, before)
  {
    hide Has, MemberOf, NumberOf, ToUint32, Texts;
    c := before;
    if v.Object? {
      if Has(v, "min_value") {
        c := c.(minValue := Some(NumberOf(MemberOf(v, "min_value"))));
      }
      if Has(v, "max_value") {
        c := c.(maxValue := Some(NumberOf(MemberOf(v, "max_value"))));
      }
      if Has(v, "min_length") {
        c := c.(minLength := Some(ToUint32(NumberOf(MemberOf(v, "min_length")))));
      }
      if Has(v, "max_length") {
        c := c.(maxLength := Some(ToUint32(NumberOf(MemberOf(v, "max_length")))));
      }
      if Has(v, "pattern") {
        c := c.(pattern := Some(TextOf(MemberOf(v, "pattern"))));
      }
      if Has(v, "allowed_values") && MemberOf(v, "allowed_values").Array? {
        var allowed := AppendTexts(MemberOf(v, "allowed_values").elements, c.allowedValues);
        c := c.(allowedValues := allowed);
      }
    }
  }

  method AppendTexts(vs: seq<Value>, before: seq<string>) returns (texts: seq<string>)
    ensures texts == before + Texts(vs)
  {
    texts := before;
    for i := 0 to |vs|
      invariant texts == before + Texts(vs[..i])
    {
      assert Texts(vs[..i + 1]) == Texts(vs[..i]) + [TextOf(vs[i])];
      texts := texts + [TextOf(vs[i])];
    }
    assert vs[..|vs|] == vs;
  }

  /** The loop over the parameters of an endpoint. */
  method ParseParameters(fp: Doubles, vs: seq<Value>, blank: int -> Schema) returns (r: Option<seq<Schema>>)
    ensures r == ParseSchemas(fp, vs, blank)
  {
    hide ParseSchema, Serialize;
    var schemas: seq<Schema> := [];
    assert vs[..0] == [];
    for i := 0 to |vs|
      invariant ParseSchemas(fp, vs[..i], blank) == Some(schemas)
    {
      assert vs[..i + 1][..i] == vs[..i] && vs[..i + 1][i] == vs[i];
      var text := SerializeValue(fp, vs[i]);
      var schema := ParseParameterSchemaFromJson(fp, text, blank(i));
      match schema {
        case Raised =>
          RaisedStays(fp, vs, blank, i + 1);
          return None;
        case Refused =>
        case Done(s) => schemas := schemas + [s];
      }
    }
    assert vs[..|vs|] == vs;
    return Some(schemas);
  }

  lemma {:induction false} RaisedStays(fp: Doubles, vs: seq<Value>, blank: int -> Schema, i: nat)
    requires i <= |vs| && ParseSchemas(fp, vs[..i], blank).None?
    ensures ParseSchemas(fp, vs, blank).None?
    decreases |vs|
  {
    hide ParseSchema, Serialize;
    if i == |vs| {
      assert vs[..i] == vs;
    } else {
      var n := |vs| - 1;
      assert vs[..n][..i] == vs[..i];
      RaisedStays(fp, vs[..n], blank, i);
    }
  }

  method ParseEndpointDefinitionFromJson(fp: Doubles, text: string, blank: int -> Schema) returns (r: Attempt<Endpoint>)
    ensures r == ParseEndpoint(fp, text, blank)
  {
    hide Described, ReadText, Segments;
    var parser := new JsonParser(fp);
    var verdict, root := parser.Parse(text);
    match verdict {
      case Thrown => return Raised;
      case Rejected => return Refused;
      case Accepted =>
    }
    if !root.Object? {
      return Refused;
    }
    var schemas := ParseParameters(fp, ParameterValues(root), blank);
    if schemas.None? {
      return Raised;
    }
    var e := ParsePathSegments(Described(root, schemas.value));
    assert e == Split(Described(root, schemas.value)) by {
      BuiltIsUnique(e, Split(Described(root, schemas.value)));
    }
    if IsValid(e) {
      return Done(e);
    }
    return Refused;
  }

  /** The loop over the endpoints of a registration; an exception ends it. */
  method ParseEndpointList(fp: Doubles, vs: seq<Value>, blanks: int -> int -> Schema) returns (r: Collected)
    ensures r == ParseEndpoints(fp, vs, blanks)
  {
    hide ParseEndpoint, Serialize, Built, IsValid;
    var endpoints: seq<Endpoint> := [];
    assert vs[..0] == [];
    for i := 0 to |vs|
      invariant ParseEndpoints(fp, vs[..i], blanks) == Collected(endpoints, false)
    {
      assert vs[..i + 1][..i] == vs[..i] && vs[..i + 1][i] == vs[i];
      var text := SerializeValue(fp, vs[i]);
      var e := ParseEndpointDefinitionFromJson(fp, text, blanks(i));
      match e {
        case Raised =>
          RaisedEndpointStays(fp, vs, blanks, i + 1);
          return Collected(endpoints, true);
        case Refused =>
        case Done(d) => endpoints := endpoints + [d];
      }
    }
    assert vs[..|vs|] == vs;
    return Collected(endpoints, false);
  }

  /** What comes after an exception is not read. */
  lemma {:induction false} RaisedEndpointStays(fp: Doubles, vs: seq<Value>, blanks: int -> int -> Schema, i: nat)
    requires i <= |vs| && ParseEndpoints(fp, vs[..i], blanks).raised
    ensures ParseEndpoints(fp, vs, blanks) == ParseEndpoints(fp, vs[..i], blanks)
    decreases |vs|
  {
    hide ParseEndpoint, Serialize, Built, IsValid;
    if i == |vs| {
      assert vs[..i] == vs;
    } else {
      var n := |vs| - 1;
      assert vs[..n][..i] == vs[..i];
      RaisedEndpointStays(fp, vs[..n], blanks, i);
    }
  }

  /** The segment vectors are determined by the path. */
  lemma BuiltIsUnique(d: Endpoint, e: Endpoint)
    requires Built(d) && Built(e)
    requires d == e.(segments := d.segments, isParameter := d.isParameter, names := d.names)
    ensures d == e
  {
    assert d.segments == e.segments;
    assert d.isParameter == e.isParameter;
    assert d.names == e.names;
  }
}
