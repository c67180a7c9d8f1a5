/**
 Validating a request against the parameter schemas of its endpoint.

 Regular expressions and floating point texts are judged by the C++ library; those judgements are
 the `Library` parameter.
 */
module Validation {
  import opened Text
  import opened Json
  import opened JsonReader
  import opened JsonParsing
  import opened ParameterSchema
  import opened Endpoints
  import opened Http
  import HttpParser
  import HttpLenience

  /** `matches(pattern, text)` is `None` for an invalid pattern. */
  datatype Library = Library(
    matches: (string, string) -> Option<bool>, isFloat: string -> bool, printFloat: string -> string)

  datatype ValidationError = ValidationError(parameter: string, message: string, provided: string)

  // ---------------------------------------------------------------- one value

  /** `std::strtoll` reading the whole text (up to a null character), in range. */
  function ReadInteger(s: string): (r: Option<int>)
    ensures r.Some? ==> IsInt64(r.value)
  {
    var t := SkipCSpace(s);
    var negative := t != "" && t[0] == '-';
    var u := if t != "" && (t[0] == '-' || t[0] == '+') then t[1..] else t;
    var n := DigitRun(u);
    if n == 0 || (n < |u| && u[n] != 0 as char) then None
    else
      var v: int := if negative then 0 - DecimalValue(u[..n]) else DecimalValue(u[..n]);
      if IsInt64(v) then Some(v) else None
  }

  lemma ReadPrintedInteger(n: int)
    requires IsInt64(n)
    ensures ReadInteger(ToString(n)) == Some(n)
  {
    var s := ToString(n);
    var digits := if n < 0 then s[1..] else s;
    DecimalInverse(if n < 0 then -n else n);
    assert digits == Decimal(if n < 0 then -n else n);
    DigitRunOf(digits, "");
    assert digits + "" == digits && digits[..|digits|] == digits;
    assert IsDigit(digits[0]);
  }

  /** The message of the first constraint a text breaks. */
  function CheckString(lib: Library, v: string, c: Constraints): Option<string> {
    if c.minLength.Some? && |v| < c.minLength.value then
      Some("String length " + ToString(|v|) + " is below minimum " + ToString(c.minLength.value))
    else if c.maxLength.Some? && |v| > c.maxLength.value then
      Some("String length " + ToString(|v|) + " exceeds maximum " + ToString(c.maxLength.value))
    else if c.pattern.Some? && lib.matches(c.pattern.value, v) == None then
      Some("Invalid regex pattern in schema")
    else if c.pattern.Some? && lib.matches(c.pattern.value, v) == Some(false) then
      Some("String does not match required pattern")
    else if c.allowedValues != [] && v !in c.allowedValues then
      Some("Value is not in the list of allowed values")
    else None
  }

  function CheckInteger(v: string, c: Constraints): Option<string> {
    match ReadInteger(v)
    case None => Some("Value is not a valid integer")
    case Some(n) =>
      if c.minValue.Some? && n < c.minValue.value then
        Some("Integer value " + ToString(n) + " is below minimum " + ToString(c.minValue.value))
      else if c.maxValue.Some? && n > c.maxValue.value then
        Some("Integer value " + ToString(n) + " exceeds maximum " + ToString(c.maxValue.value))
      else None
  }

  predicate IsBooleanText(v: string) {
    v in {"true", "false", "1", "0", "yes", "no"}
  }

  function CheckValue(lib: Library, s: Schema, v: string): Option<string> {
    match s.kind
    case StringType => CheckString(lib, v, s.constraints)
    case IntegerType => CheckInteger(v, s.constraints)
    case FloatType => if lib.isFloat(v) then None else Some("Value is not a valid floating-point number")
    case BooleanType =>
      if IsBooleanText(v) then None
      else Some("Value is not a valid boolean (expected true/false, 1/0, or yes/no)")
    case _ => None
  }

  predicate Within(n: int, low: Option<int>, high: Option<int>) {
    (low.Some? ==> low.value <= n) && (high.Some? ==> n <= high.value)
  }

  /** What a schema asks of a text, all constraints together. */
  predicate Fits(lib: Library, s: Schema, v: string) {
    var c := s.constraints;
    match s.kind
    case StringType =>
      && Within(|v|, c.minLength, c.maxLength)
      && (c.pattern.Some? ==> lib.matches(c.pattern.value, v) == Some(true))
      && (c.allowedValues != [] ==> v in c.allowedValues)
    case IntegerType => ReadInteger(v).Some? && Within(ReadInteger(v).value, c.minValue, c.maxValue)
    case FloatType => lib.isFloat(v)
    case BooleanType => IsBooleanText(v)
    case _ => true
  }

  lemma CheckIsExact(lib: Library, s: Schema, v: string)
    ensures CheckValue(lib, s, v).None? <==> Fits(lib, s, v)
  {
    hide ReadInteger, ToString;
    var c := s.constraints;
    if s.kind == StringType && c.pattern.Some? {
      match lib.matches(c.pattern.value, v)
      case None =>
      case Some(b) =>
    }
  }

  // ---------------------------------------------------------------- path, query and headers

  /** The text given for a parameter outside the body. */
  function Given(r: HttpRequest, s: Schema): Option<string> {
    var (source, name) := match s.location
      case InPath => (r.pathParameters, s.name)
      case InQuery => (r.query, s.name)
      case InHeader => (r.headers, HttpParser.ToLowerCase(s.name))
      case InBody => (map[], s.name);
    if name in source then Some(source[name]) else None
  }

  function LocationName(l: Location): string {
    match l
    case InPath => "path"
    case InQuery => "query"
    case InHeader => "header"
    case InBody => "body"
  }

  function ParameterError(lib: Library, r: HttpRequest, s: Schema): Option<ValidationError> {
    match Given(r, s)
    case Some(v) =>
      (match CheckValue(lib, s, v)
       case None => None
       case Some(message) => Some(ValidationError(s.name, message, v)))
    case None =>
      if s.required then
        Some(ValidationError(s.name, "Required " + LocationName(s.location) + " parameter is missing", ""))
      else None
  }

  function ListOf<T>(o: Option<T>): seq<T> {
    if o.Some? then [o.value] else []
  }

  lemma ListOfIsEmpty<T(!new)>()
    ensures forall o: Option<T> :: ListOf(o) == [] <==> o.None?
  {
  }

  /** The errors of the parameters at one location, in the order of the schemas. */
  function ErrorsAt(lib: Library, r: HttpRequest, schemas: seq<Schema>, l: Location): seq<ValidationError> {
    if schemas == [] then []
    else
      var n := |schemas| - 1;
      ErrorsAt(lib, r, schemas[..n], l) +
      (if schemas[n].location == l then ListOf(ParameterError(lib, r, schemas[n])) else [])
  }

  // ---------------------------------------------------------------- the body

  /** The text of a field that is checked further; `None` when the field has the wrong type. */
  function FieldText(lib: Library, kind: ParameterType, v: Value): Option<string> {
    match kind
    case StringType => if v.String? then Some(v.text) else None
    case IntegerType => if v.Integer? then Some(ToString(v.number)) else None
    case FloatType =>
      if v.Float? then Some(lib.printFloat(v.token)) else if v.Integer? then Some(ToString(v.number)) else None
    case BooleanType => if v.Boolean? then Some(if v.flag then "true" else "false") else None
    case ArrayType => if v.Array? then Some("") else None
    case ObjectType => if v.Object? then Some("") else None
  }

  /** Texts that are checked against constraints: not the empty one, and only of these types. */
  predicate IsChecked(kind: ParameterType, text: string) {
    text != "" && (kind == StringType || kind == IntegerType || kind == FloatType)
  }

  function FieldError(lib: Library, body: Value, s: Schema): Option<ValidationError> {
    if !body.Object? then
      if s.required then Some(ValidationError(s.name, "Expected JSON object body", "")) else None
    else if !Has(body, s.name) then
      if s.required then Some(ValidationError(s.name, "Required body field is missing", "")) else None
    else
      match FieldText(lib, s.kind, MemberOf(body, s.name))
      case None => Some(ValidationError(s.name, "Field type mismatch", ""))
      case Some(text) =>
        if !IsChecked(s.kind, text) then None
        else
          match CheckValue(lib, s, text)
          case None => None
          case Some(message) => Some(ValidationError(s.name, message, text))
  }

  function BodySchemas(schemas: seq<Schema>): (r: seq<Schema>)
    ensures forall s :: s in r <==> s in schemas && s.location == InBody
  {
    if schemas == [] then []
    else
      var n := |schemas| - 1;
      assert schemas == schemas[..n] + [schemas[n]];
      BodySchemas(schemas[..n]) + (if schemas[n].location == InBody then [schemas[n]] else [])
  }

  function MissingErrors(schemas: seq<Schema>): seq<ValidationError> {
    if schemas == [] then []
    else
      var n := |schemas| - 1;
      MissingErrors(schemas[..n]) +
      (if schemas[n].required
       then [ValidationError(schemas[n].name, "Required body parameter is missing (no body provided)", "")]
       else [])
  }

  function FieldErrors(lib: Library, body: Value, schemas: seq<Schema>): seq<ValidationError> {
    if schemas == [] then []
    else
      var n := |schemas| - 1;
      FieldErrors(lib, body, schemas[..n]) + ListOf(FieldError(lib, body, schemas[n]))
  }

  /** The errors of the body; `None` where parsing it throws. */
  function BodyErrors(fp: Doubles, lib: Library, r: HttpRequest, schemas: seq<Schema>): Option<seq<ValidationError>> {
    if schemas == [] then Some([])
    else if r.body == "" then Some(MissingErrors(schemas))
    else
      match ReadText(fp, r.body)
      case Throw => None
      case Fail(m, _) => Some([ValidationError("body", "Request body is not valid JSON: " + m, "")])
      case Ok(v, _) => Some(FieldErrors(lib, v, schemas))
  }

  // ---------------------------------------------------------------- the whole request

  /** All errors: those of the path first, then query, headers and body. */
  function AllErrors(fp: Doubles, lib: Library, r: HttpRequest, schemas: seq<Schema>): Option<seq<ValidationError>> {
    match BodyErrors(fp, lib, r, BodySchemas(schemas))
    case None => None
    case Some(body) =>
      Some(ErrorsAt(lib, r, schemas, InPath) + ErrorsAt(lib, r, schemas, InQuery) +
           ErrorsAt(lib, r, schemas, InHeader) + body)
  }

  /** What a schema asks of a request, said without the order of checks. */
  predicate Meets(fp: Doubles, lib: Library, r: HttpRequest, s: Schema) {
    if s.location != InBody then
      match Given(r, s)
      case Some(v) => Fits(lib, s, v)
      case None => !s.required
    else if r.body == "" then !s.required
    else ReadText(fp, r.body).Ok? && BodyMeets(lib, ReadText(fp, r.body).value, s)
  }

  /** The field is there with the right type and, unless its text is empty, fits; or it is not required. */
  predicate BodyMeets(lib: Library, body: Value, s: Schema) {
    if !Has(body, s.name) then !s.required
    else
      match FieldText(lib, s.kind, MemberOf(body, s.name))
      case None => false
      case Some(text) => IsChecked(s.kind, text) ==> Fits(lib, s, text)
  }

  predicate AllMeet(fp: Doubles, lib: Library, r: HttpRequest, schemas: seq<Schema>) {
    forall i :: 0 <= i < |schemas| ==> Meets(fp, lib, r, schemas[i])
  }

  lemma ParameterErrorIsExact(fp: Doubles, lib: Library, r: HttpRequest, s: Schema)
    requires s.location != InBody
    ensures ParameterError(lib, r, s).None? <==> Meets(fp, lib, r, s)
  {
    hide CheckValue, Fits, Given;
    if Given(r, s).Some? {
      CheckIsExact(lib, s, Given(r, s).value);
    }
  }

  lemma FieldErrorIsExact(lib: Library, body: Value, s: Schema)
    ensures FieldError(lib, body, s).None? <==> BodyMeets(lib, body, s)
  {
    hide CheckValue, Fits, FieldText, MemberOf;
    if Has(body, s.name) && FieldText(lib, s.kind, MemberOf(body, s.name)).Some? {
      CheckIsExact(lib, s, FieldText(lib, s.kind, MemberOf(body, s.name)).value);
    }
  }

  lemma {:induction false} NoErrorsAt(fp: Doubles, lib: Library, r: HttpRequest, schemas: seq<Schema>, l: Location)
    requires l != InBody
    ensures ErrorsAt(lib, r, schemas, l) == [] <==>
            forall i :: 0 <= i < |schemas| && schemas[i].location == l ==> Meets(fp, lib, r, schemas[i])
  {
    hide ParameterError, Meets;
    if schemas != [] {
      var n := |schemas| - 1;
      NoErrorsAt(fp, lib, r, schemas[..n], l);
      assert forall i :: 0 <= i < n ==> schemas[..n][i] == schemas[i];
      if schemas[n].location == l {
        ParameterErrorIsExact(fp, lib, r, schemas[n]);
      }
    }
  }

  lemma InInitOrLast(schemas: seq<Schema>)
    requires schemas != []
    ensures forall s :: s in schemas <==> s in schemas[..|schemas| - 1] || s == schemas[|schemas| - 1]
  {
    assert schemas == schemas[..|schemas| - 1] + [schemas[|schemas| - 1]];
  }

  lemma {:induction false} NothingMissing(schemas: seq<Schema>)
    ensures MissingErrors(schemas) == [] <==> forall s :: s in schemas ==> !s.required
  {
    if schemas != [] {
      var n := |schemas| - 1;
      NothingMissing(schemas[..n]);
      InInitOrLast(schemas);
    }
  }

  lemma {:induction false} NoFieldErrors(lib: Library, body: Value, schemas: seq<Schema>)
    ensures FieldErrors(lib, body, schemas) == [] <==> forall s :: s in schemas ==> BodyMeets(lib, body, s)
  {
    hide FieldError, BodyMeets, ListOf;
    ListOfIsEmpty<ValidationError>();
    if schemas != [] {
      var n := |schemas| - 1;
      NoFieldErrors(lib, body, schemas[..n]);
      FieldErrorIsExact(lib, body, schemas[n]);
      InInitOrLast(schemas);
    }
  }

  lemma NoBodyErrors(fp: Doubles, lib: Library, r: HttpRequest, schemas: seq<Schema>)
    requires BodyErrors(fp, lib, r, BodySchemas(schemas)).Some?
    ensures BodyErrors(fp, lib, r, BodySchemas(schemas)).value == [] <==>
            forall s :: s in schemas && s.location == InBody ==> Meets(fp, lib, r, s)
  {
    hide BodyMeets, FieldErrors, MissingErrors, ReadText;
    var bodies := BodySchemas(schemas);
    assert bodies != [] ==> bodies[0] in schemas && bodies[0].location == InBody;
    if r.body == "" {
      NothingMissing(bodies);
    } else if ReadText(fp, r.body).Ok? {
      NoFieldErrors(lib, ReadText(fp, r.body).value, bodies);
    }
  }

  /** Validation is exact: no error is reported if and only if every schema is met. */
  lemma ValidationIsExact(fp: Doubles, lib: Library, r: HttpRequest, schemas: seq<Schema>)
    requires AllErrors(fp, lib, r, schemas).Some?
    ensures AllErrors(fp, lib, r, schemas).value == [] <==> AllMeet(fp, lib, r, schemas)
  {
    NoErrorsAt(fp, lib, r, schemas, InPath);
    NoErrorsAt(fp, lib, r, schemas, InQuery);
    NoErrorsAt(fp, lib, r, schemas, InHeader);
    NoBodyErrors(fp, lib, r, schemas);
    hide ErrorsAt, BodyErrors, Meets, BodySchemas;
    var all := AllErrors(fp, lib, r, schemas).value;
    assert all == [] <==> ErrorsAt(lib, r, schemas, InPath) == [] && ErrorsAt(lib, r, schemas, InQuery) == [] &&
                          ErrorsAt(lib, r, schemas, InHeader) == [] &&
                          BodyErrors(fp, lib, r, BodySchemas(schemas)).value == [];
    if forall s :: s in schemas && s.location == InBody ==> Meets(fp, lib, r, s) {
      assert forall i :: 0 <= i < |schemas| ==> schemas[i] in schemas;
    }
  }

  /** An integer field is accepted exactly when the number lies between its bounds, for every 64-bit number. */
  lemma IntegerFieldIsExact(lib: Library, body: Value, s: Schema)
    requires s.kind == IntegerType && Has(body, s.name) && MemberOf(body, s.name).Integer?
    requires IsInt64(MemberOf(body, s.name).number)
    ensures FieldError(lib, body, s).None? <==>
            Within(MemberOf(body, s.name).number, s.constraints.minValue, s.constraints.maxValue)
  {
    var n := MemberOf(body, s.name).number;
    ReadPrintedInteger(n);
    hide ReadInteger, MemberOf, Has, ToString;
    CheckIsExact(lib, s, ToString(n));
  }

  // ---------------------------------------------------------------- which errors are reported

  function Names(errors: seq<ValidationError>): (names: seq<string>)
    ensures |names| == |errors|
  {
    seq(|errors|, i requires 0 <= i < |errors| => errors[i].parameter)
  }

  /** The names of the schemas at a location that a request does not meet, in their order. */
  function UnmetNames(fp: Doubles, lib: Library, r: HttpRequest, schemas: seq<Schema>, l: Location): seq<string> {
    if schemas == [] then []
    else
      var n := |schemas| - 1;
      UnmetNames(fp, lib, r, schemas[..n], l) +
      (if schemas[n].location == l && !Meets(fp, lib, r, schemas[n]) then [schemas[n].name] else [])
  }

  lemma NamesJoin(a: seq<ValidationError>, b: seq<ValidationError>)
    ensures Names(a + b) == Names(a) + Names(b)
  {
  }

  lemma {:induction false} ErrorsNameUnmet(fp: Doubles, lib: Library, r: HttpRequest, schemas: seq<Schema>, l: Location)
    requires l != InBody
    ensures Names(ErrorsAt(lib, r, schemas, l)) == UnmetNames(fp, lib, r, schemas, l)
    decreases |schemas|
  {
    hide Meets, Given, CheckValue, LocationName;
    if schemas != [] {
      var n := |schemas| - 1;
      var last := if schemas[n].location == l then ListOf(ParameterError(lib, r, schemas[n])) else [];
      ErrorsNameUnmet(fp, lib, r, schemas[..n], l);
      NamesJoin(ErrorsAt(lib, r, schemas[..n], l), last);
      if schemas[n].location == l {
        ParameterErrorIsExact(fp, lib, r, schemas[n]);
      }
    }
  }

  lemma UnmetStep(fp: Doubles, lib: Library, r: HttpRequest, schemas: seq<Schema>, s: Schema, l: Location)
    ensures UnmetNames(fp, lib, r, schemas + [s], l) ==
            UnmetNames(fp, lib, r, schemas, l) + (if s.location == l && !Meets(fp, lib, r, s) then [s.name] else [])
  {
    hide Meets;
    assert (schemas + [s])[..|schemas|] == schemas;
  }

  lemma BodySchemasStep(schemas: seq<Schema>, s: Schema)
    ensures BodySchemas(schemas + [s]) == BodySchemas(schemas) + (if s.location == InBody then [s] else [])
    ensures BodySchemas([]) == []
  {
    assert (schemas + [s])[..|schemas|] == schemas;
  }

  /** Only the body's schemas matter for the body. */
  lemma {:induction false} UnmetInBody(fp: Doubles, lib: Library, r: HttpRequest, schemas: seq<Schema>)
    ensures UnmetNames(fp, lib, r, BodySchemas(schemas), InBody) == UnmetNames(fp, lib, r, schemas, InBody)
    decreases |schemas|
  {
    hide Meets, UnmetNames, BodySchemas;
    if schemas == [] {
      BodySchemasStep([], Schema("", StringType, InPath, false, "", "", NoConstraints));
    } else {
      var n := |schemas| - 1;
      var init, s := schemas[..n], schemas[n];
      assert schemas == init + [s];
      UnmetInBody(fp, lib, r, init);
      BodySchemasStep(init, s);
      UnmetStep(fp, lib, r, init, s, InBody);
      UnmetStep(fp, lib, r, BodySchemas(init), s, InBody);
      assert BodySchemas(init) + [] == BodySchemas(init);
    }
  }

  lemma {:induction false} MissingNameUnmet(fp: Doubles, lib: Library, r: HttpRequest, bodies: seq<Schema>)
    requires r.body == "" && forall i :: 0 <= i < |bodies| ==> bodies[i].location == InBody
    ensures Names(MissingErrors(bodies)) == UnmetNames(fp, lib, r, bodies, InBody)
    decreases |bodies|
  {
    if bodies != [] {
      var n := |bodies| - 1;
      MissingNameUnmet(fp, lib, r, bodies[..n]);
      hide Meets;
      NamesJoin(MissingErrors(bodies[..n]), MissingErrors(bodies)[|MissingErrors(bodies[..n])|..]);
      assert Meets(fp, lib, r, bodies[n]) <==> !bodies[n].required by {
        MissingMeets(fp, lib, r, bodies[n]);
      }
    }
  }

  lemma MissingMeets(fp: Doubles, lib: Library, r: HttpRequest, s: Schema)
    requires r.body == "" && s.location == InBody
    ensures Meets(fp, lib, r, s) <==> !s.required
  {
  }

  lemma FieldMeets(fp: Doubles, lib: Library, r: HttpRequest, s: Schema)
    requires r.body != "" && ReadText(fp, r.body).Ok? && s.location == InBody
    ensures Meets(fp, lib, r, s) <==> FieldError(lib, ReadText(fp, r.body).value, s).None?
  {
    hide FieldError, BodyMeets, ReadText;
    FieldErrorIsExact(lib, ReadText(fp, r.body).value, s);
  }

  lemma {:induction false} FieldsNameUnmet(fp: Doubles, lib: Library, r: HttpRequest, bodies: seq<Schema>)
    requires r.body != "" && ReadText(fp, r.body).Ok? && forall i :: 0 <= i < |bodies| ==> bodies[i].location == InBody
    ensures Names(FieldErrors(lib, ReadText(fp, r.body).value, bodies)) == UnmetNames(fp, lib, r, bodies, InBody)
    decreases |bodies|
  {
    hide Meets, FieldError, ReadText;
    if bodies != [] {
      var n := |bodies| - 1;
      var body := ReadText(fp, r.body).value;
      FieldsNameUnmet(fp, lib, r, bodies[..n]);
      FieldMeets(fp, lib, r, bodies[n]);
      FieldErrorNames(lib, body, bodies[n]);
      NamesJoin(FieldErrors(lib, body, bodies[..n]), ListOf(FieldError(lib, body, bodies[n])));
    }
  }

  lemma FieldErrorNames(lib: Library, body: Value, s: Schema)
    ensures FieldError(lib, body, s).Some? ==> FieldError(lib, body, s).value.parameter == s.name
  {
    hide CheckValue, FieldText;
  }

  /**
   Which errors a request gets: one for each schema it does not meet, under the schema's name, those of the
   path first, then query, headers and body, and at each location in the order of the schemas. A body
   that is no JSON text gets a single error of its own, if any schema asks for it.
   */
  lemma ErrorsAreExact(fp: Doubles, lib: Library, r: HttpRequest, schemas: seq<Schema>)
    requires AllErrors(fp, lib, r, schemas).Some?
    ensures Names(AllErrors(fp, lib, r, schemas).value) ==
            UnmetNames(fp, lib, r, schemas, InPath) + UnmetNames(fp, lib, r, schemas, InQuery) +
            UnmetNames(fp, lib, r, schemas, InHeader) +
            (if r.body == "" || ReadText(fp, r.body).Ok? then UnmetNames(fp, lib, r, schemas, InBody)
             else if exists s :: s in schemas && s.location == InBody then ["body"] else [])
  {
    hide ErrorsAt, UnmetNames, ReadText, FieldErrors, MissingErrors, Names;
    ErrorsNameUnmet(fp, lib, r, schemas, InPath);
    ErrorsNameUnmet(fp, lib, r, schemas, InQuery);
    ErrorsNameUnmet(fp, lib, r, schemas, InHeader);
    var bodies := BodySchemas(schemas);
    assert bodies != [] ==> bodies[0] in schemas;
    BodyNames(fp, lib, r, schemas);
    hide BodySchemas, BodyErrors;
    var path, query, header := ErrorsAt(lib, r, schemas, InPath), ErrorsAt(lib, r, schemas, InQuery), ErrorsAt(lib, r, schemas, InHeader);
    var body := BodyErrors(fp, lib, r, bodies).value;
    NamesJoin(path, query);
    NamesJoin(path + query, header);
    NamesJoin(path + query + header, body);
  }

  lemma BodyNames(fp: Doubles, lib: Library, r: HttpRequest, schemas: seq<Schema>)
    requires BodyErrors(fp, lib, r, BodySchemas(schemas)).Some?
    ensures Names(BodyErrors(fp, lib, r, BodySchemas(schemas)).value) ==
            if r.body == "" || ReadText(fp, r.body).Ok? then UnmetNames(fp, lib, r, schemas, InBody)
            else if exists s :: s in schemas && s.location == InBody then ["body"] else []
  {
    hide UnmetNames, ReadText, FieldErrors, MissingErrors;
    var bodies := BodySchemas(schemas);
    assert bodies != [] ==> bodies[0] in schemas && bodies[0].location == InBody;
    NoSchemasNoErrors(lib, if r.body != "" && ReadText(fp, r.body).Ok? then ReadText(fp, r.body).value else Null);
    UnmetInBody(fp, lib, r, schemas);
    assert forall i :: 0 <= i < |bodies| ==> bodies[i] in bodies;
    if r.body == "" {
      MissingNameUnmet(fp, lib, r, bodies);
    } else if ReadText(fp, r.body).Ok? {
      FieldsNameUnmet(fp, lib, r, bodies);
    }
  }

  lemma NoSchemasNoErrors(lib: Library, body: Value)
    ensures MissingErrors([]) == [] && FieldErrors(lib, body, []) == []
  {
  }

  /** What an error outside the body says was provided: the very text that does not fit, or nothing for a missing parameter. */
  lemma ProvidedIsTheText(lib: Library, r: HttpRequest, s: Schema, lowered: string)
    requires IsLowered(s.name, lowered) && ParameterError(lib, r, s).Some?
    ensures var e := ParameterError(lib, r, s).value;
            && e.parameter == s.name
            && (s.location == InPath ==> e.provided == if s.name in r.pathParameters then r.pathParameters[s.name] else "")
            && (s.location == InQuery ==> e.provided == if s.name in r.query then r.query[s.name] else "")
            && (s.location == InHeader ==> e.provided == if lowered in r.headers then r.headers[lowered] else "")
  {
    hide CheckValue, LocationName;
    assert HttpParser.ToLowerCase(s.name) == lowered;
  }

  /** What the error of a missing required parameter says. */
  lemma MissingMessages(lib: Library, r: HttpRequest, s: Schema, lowered: string)
    requires IsLowered(s.name, lowered) && s.required
    ensures s.location == InPath && s.name !in r.pathParameters ==>
              ParameterError(lib, r, s) == Some(ValidationError(s.name, "Required path parameter is missing", ""))
    ensures s.location == InQuery && s.name !in r.query ==>
              ParameterError(lib, r, s) == Some(ValidationError(s.name, "Required query parameter is missing", ""))
    ensures s.location == InHeader && lowered !in r.headers ==>
              ParameterError(lib, r, s) == Some(ValidationError(s.name, "Required header parameter is missing", ""))
  {
    hide CheckValue, LocationName, MissingText;
    assert HttpParser.ToLowerCase(s.name) == lowered;
    MissingTexts();
    hide ParameterError;
    if Given(r, s).None? {
      MissingSays(lib, r, s);
    }
  }

  function MissingText(l: Location): string {
    "Required " + LocationName(l) + " parameter is missing"
  }

  lemma MissingSays(lib: Library, r: HttpRequest, s: Schema)
    requires Given(r, s).None? && s.required
    ensures ParameterError(lib, r, s) == Some(ValidationError(s.name, MissingText(s.location), ""))
  {
    hide Given, CheckValue, LocationName;
  }

  lemma MissingTexts()
    ensures MissingText(InPath) == "Required path parameter is missing"
    ensures MissingText(InQuery) == "Required query parameter is missing"
    ensures MissingText(InHeader) == "Required header parameter is missing"
  {
    MissingPath();
    MissingQuery();
    MissingHeader();
    hide MissingText;
  }

  lemma MissingPath()
    ensures MissingText(InPath) == "Required path parameter is missing"
  {
  }

  lemma MissingQuery()
    ensures MissingText(InQuery) == "Required query parameter is missing"
  {
  }

  lemma MissingHeader()
    ensures MissingText(InHeader) == "Required header parameter is missing"
  {
  }

  /** The single error of a body that is no JSON text says where the parser gave up. */
  lemma UnparsableBody(fp: Doubles, lib: Library, r: HttpRequest, schemas: seq<Schema>)
    requires r.body != "" && ReadText(fp, r.body).Fail? && exists s :: s in schemas && s.location == InBody
    ensures BodyErrors(fp, lib, r, BodySchemas(schemas)) ==
            Some([ValidationError("body", "Request body is not valid JSON: " + ReadText(fp, r.body).message, "")])
  {
    hide ReadText;
    var s :| s in schemas && s.location == InBody;
    assert s in BodySchemas(schemas);
  }

  // ---------------------------------------------------------------- where values are taken from

  /** The name in small letters: capitals have become small, nothing else has changed. */
  predicate IsLowered(name: string, lowered: string) {
    |lowered| == |name| && forall i :: 0 <= i < |name| ==>
      lowered[i] as int == if 'A' <= name[i] <= 'Z' then name[i] as int + 32 else name[i] as int
  }

  /** Path and query parameters are looked up by name, headers by the name in small letters; then the value has to fit. */
  lemma ParametersAreLookedUp(fp: Doubles, lib: Library, r: HttpRequest, s: Schema, lowered: string)
    requires IsLowered(s.name, lowered)
    ensures s.location == InPath ==>
              (Meets(fp, lib, r, s) <==>
                 if s.name in r.pathParameters then Fits(lib, s, r.pathParameters[s.name]) else !s.required)
    ensures s.location == InQuery ==>
              (Meets(fp, lib, r, s) <==> if s.name in r.query then Fits(lib, s, r.query[s.name]) else !s.required)
    ensures s.location == InHeader ==>
              (Meets(fp, lib, r, s) <==> if lowered in r.headers then Fits(lib, s, r.headers[lowered]) else !s.required)
  {
    hide Fits;
    assert HttpParser.ToLowerCase(s.name) == lowered;
  }

  /** A boolean parameter is one of six words. */
  lemma BooleanWords(lib: Library, s: Schema, v: string)
    requires s.kind == BooleanType
    ensures Fits(lib, s, v) <==> v == "true" || v == "false" || v == "1" || v == "0" || v == "yes" || v == "no"
  {
  }

  /** What a field of the body must be, type by type; an empty text is never checked further. */
  lemma FieldTypes(lib: Library, body: Value, s: Schema)
    requires Has(body, s.name)
    ensures var m := MemberOf(body, s.name);
            match s.kind
            case StringType => BodyMeets(lib, body, s) <==> m.String? && (m.text == "" || Fits(lib, s, m.text))
            case BooleanType => BodyMeets(lib, body, s) <==> m.Boolean?
            case ArrayType => BodyMeets(lib, body, s) <==> m.Array?
            case ObjectType => BodyMeets(lib, body, s) <==> m.Object?
            case FloatType =>
              BodyMeets(lib, body, s) <==>
                || (m.Float? && (lib.printFloat(m.token) == "" || lib.isFloat(lib.printFloat(m.token))))
                || (m.Integer? && lib.isFloat(ToString(m.number)))
            case IntegerType =>
              IsInt64(if m.Integer? then m.number else 0) ==>
                (BodyMeets(lib, body, s) <==> m.Integer? && Within(m.number, s.constraints.minValue, s.constraints.maxValue))
  {
    hide Has, MemberOf;
    var m := MemberOf(body, s.name);
    if s.kind == IntegerType && m.Integer? && IsInt64(m.number) {
      ReadPrintedInteger(m.number);
    }
    hide ToString, ReadInteger;
  }

  /** A text is an integer when white space, a sign and digits are all of it, up to a null character, and it fits 64 bits. */
  lemma IntegerTexts(gap: string, sign: string, digits: string, junk: string)
    requires IsCGap(gap) && (sign == "" || sign == "+" || sign == "-") && AllDigits(digits)
    requires junk != "" ==> !('0' <= junk[0] <= '9')
    requires digits == "" && sign == "" && junk != "" ==> junk[0] != '+' && junk[0] != '-' && !IsCGap([junk[0]])
    ensures ReadInteger(gap + (sign + (digits + junk))) ==
            if digits == "" || (junk != "" && junk[0] != 0 as char) then None
            else
              var n: int := if sign == "-" then 0 - DecimalValue(digits) else DecimalValue(digits);
              if -9223372036854775808 <= n <= 9223372036854775807 then Some(n) else None
  {
    hide DecimalValue, SkipCSpace;
    var u := digits + junk;
    var t := sign + u;
    HttpLenience.LengthHead(sign, digits, junk);
    CGapSkipped(gap, t);
    DigitRunOf(digits, junk);
    assert u[..|digits|] == digits;
    assert (if t != "" && (t[0] == '-' || t[0] == '+') then t[1..] else t) == u;
  }

  // ---------------------------------------------------------------- the methods

  method ValidateLocation(lib: Library, r: HttpRequest, schemas: seq<Schema>, l: Location, before: seq<ValidationError>)
    returns (ok: bool, errors: seq<ValidationError>)
    ensures errors == before + ErrorsAt(lib, r, schemas, l)
    ensures ok <==> ErrorsAt(lib, r, schemas, l) == []
  {
    hide CheckValue, Given;
    ok, errors := true, before;
    assert schemas[..0] == [];
    for i := 0 to |schemas|
      invariant errors == before + ErrorsAt(lib, r, schemas[..i], l)
      invariant ok <==> ErrorsAt(lib, r, schemas[..i], l) == []
    {
      var s := schemas[i];
      assert schemas[..i + 1][..i] == schemas[..i] && schemas[..i + 1][i] == s;
      if s.location == l {
        var given := Given(r, s);
        if given.Some? {
          var message := CheckValue(lib, s, given.value);
          if message.Some? {
            errors := errors + [ValidationError(s.name, message.value, given.value)];
            ok := false;
          }
        } else if s.required {
          errors := errors + [ValidationError(s.name, "Required " + LocationName(l) + " parameter is missing", "")];
          ok := false;
        }
      }
    }
    assert schemas[..|schemas|] == schemas;
  }

  method CollectBodySchemas(schemas: seq<Schema>) returns (bodies: seq<Schema>)
    ensures bodies == BodySchemas(schemas)
  {
    bodies := [];
    assert schemas[..0] == [];
    for i := 0 to |schemas|
      invariant bodies == BodySchemas(schemas[..i])
    {
      assert schemas[..i + 1][..i] == schemas[..i];
      if schemas[i].location == InBody {
        bodies := bodies + [schemas[i]];
      }
    }
    assert schemas[..|schemas|] == schemas;
  }

  /** `None` where parsing the body throws. */
  method ValidateBody(fp: Doubles, lib: Library, r: HttpRequest, schemas: seq<Schema>)
    returns (errors: Option<seq<ValidationError>>)
    ensures errors == BodyErrors(fp, lib, r, BodySchemas(schemas))
  {
    hide ReadText, FieldError, BodySchemas;
    var bodies := CollectBodySchemas(schemas);
    if bodies == [] {
      return Some([]);
    }
    var found: seq<ValidationError> := [];
    if r.body == "" {
      assert bodies[..0] == [];
      for i := 0 to |bodies|
        invariant found == MissingErrors(bodies[..i])
      {
        assert bodies[..i + 1][..i] == bodies[..i];
        if bodies[i].required {
          found := found + [ValidationError(bodies[i].name, "Required body parameter is missing (no body provided)", "")];
        }
      }
      assert bodies[..|bodies|] == bodies;
      return Some(found);
    }
    var parser := new JsonParser(fp);
    var verdict, body := parser.Parse(r.body);
    match verdict {
      case Thrown => return None;
      case Rejected =>
        return Some([ValidationError("body", "Request body is not valid JSON: " + parser.errorMessage, "")]);
      case Accepted =>
        found := ValidateFields(lib, body, bodies);
        return Some(found);
    }
  }

  method ValidateFields(lib: Library, body: Value, schemas: seq<Schema>) returns (errors: seq<ValidationError>)
    ensures errors == FieldErrors(lib, body, schemas)
  {
    hide FieldError;
    errors := [];
    assert schemas[..0] == [];
    for i := 0 to |schemas|
      invariant errors == FieldErrors(lib, body, schemas[..i])
    {
      assert schemas[..i + 1][..i] == schemas[..i];
      var error := FieldError(lib, body, schemas[i]);
      if error.Some? {
        errors := errors + [error.value];
      }
    }
    assert schemas[..|schemas|] == schemas;
  }

  /** Valid, no errors, and every schema met: the three are the same. `None` where parsing the body throws. */
  method ValidateRequest(fp: Doubles, lib: Library, r: HttpRequest, e: Endpoint)
    returns (valid: bool, errors: Option<seq<ValidationError>>)
    ensures errors == AllErrors(fp, lib, r, e.schemas)
    ensures errors.Some? ==> (valid <==> errors.value == []) && (valid <==> AllMeet(fp, lib, r, e.schemas))
  {
    hide ErrorsAt, BodyErrors, BodySchemas, AllMeet;
    var pathOk, queryOk, headerOk, found;
    pathOk, found := ValidateLocation(lib, r, e.schemas, InPath, []);
    queryOk, found := ValidateLocation(lib, r, e.schemas, InQuery, found);
    headerOk, found := ValidateLocation(lib, r, e.schemas, InHeader, found);
    var body := ValidateBody(fp, lib, r, e.schemas);
    if body.None? {
      return false, None;
    }
    errors := Some(found + body.value);
    assert found + body.value == ErrorsAt(lib, r, e.schemas, InPath) + ErrorsAt(lib, r, e.schemas, InQuery) +
                                 ErrorsAt(lib, r, e.schemas, InHeader) + body.value;
    valid := pathOk && queryOk && headerOk && body.value == [];
    ValidationIsExact(fp, lib, r, e.schemas);
  }
}
