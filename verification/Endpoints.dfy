/**
 Endpoint definitions: HTTP methods, path templates, and matching a request path.
 */
module Endpoints {
  import opened ParameterSchema

  datatype HttpMethod = Get | Post | Put | Delete | Patch | Head | Options | Unknown

  function MethodName(m: HttpMethod): (s: string)
    ensures ':' !in s
  {
    match m
    case Get => "GET"
    case Post => "POST"
    case Put => "PUT"
    case Delete => "DELETE"
    case Patch => "PATCH"
    case Head => "HEAD"
    case Options => "OPTIONS"
    case Unknown => "UNKNOWN"
  }

  function MethodOf(s: string): HttpMethod {
    if s == "GET" || s == "get" then Get
    else if s == "POST" || s == "post" then Post
    else if s == "PUT" || s == "put" then Put
    else if s == "DELETE" || s == "delete" then Delete
    else if s == "PATCH" || s == "patch" then Patch
    else if s == "HEAD" || s == "head" then Head
    else if s == "OPTIONS" || s == "options" then Options
    else Unknown
  }

  lemma MethodNameInverse(m: HttpMethod)
    ensures MethodOf(MethodName(m)) == m
  {
  }

  function RouteKey(m: HttpMethod, path: string): string {
    MethodName(m) + ":" + path
  }

  /** A route key determines its method and its path, although paths may contain colons. */
  lemma RouteKeyInjective(m: HttpMethod, path: string, m': HttpMethod, path': string)
    requires RouteKey(m, path) == RouteKey(m', path')
    ensures m == m' && path == path'
  {
    var k, a, b := RouteKey(m, path), |MethodName(m)|, |MethodName(m')|;
    assert k[a] == ':' && k[b] == ':';
    assert forall i :: 0 <= i < a ==> k[i] == MethodName(m)[i] != ':';
    assert forall i :: 0 <= i < b ==> k[i] == MethodName(m')[i] != ':';
    assert a == b;
    assert MethodName(m) == k[..a] && MethodName(m') == k[..a];
    MethodNameInverse(m);
    MethodNameInverse(m');
    assert path == k[a + 1..] && path' == k[a + 1..];
  }

  // ---------------------------------------------------------------- segments

  function SegmentEnd(s: string): (n: nat)
    ensures n <= |s| && '/' !in s[..n]
    ensures n < |s| ==> s[n] == '/'
  {
    if s == "" || s[0] == '/' then 0
    else
      var n := SegmentEnd(s[1..]);
      assert s[..n + 1] == [s[0]] + s[1..][..n];
      n + 1
  }

  /** The non-empty parts of a path between its slashes. */
  function Segments(path: string): (r: seq<string>)
    ensures forall i :: 0 <= i < |r| ==> r[i] != "" && '/' !in r[i]
    decreases |path|
  {
    var n := SegmentEnd(path);
    var rest := if n < |path| then Segments(path[n + 1..]) else [];
    if n > 0 then [path[..n]] + rest else rest
  }

  function Join(segments: seq<string>): string {
    if segments == [] then "" else "/" + segments[0] + Join(segments[1..])
  }

  lemma {:induction false} SegmentEndOf(segment: string, rest: string)
    requires '/' !in segment
    requires rest == "" || rest[0] == '/'
    ensures SegmentEnd(segment + rest) == |segment|
  {
    if segment == "" {
      assert segment + rest == rest;
    } else {
      SegmentEndOf(segment[1..], rest);
      assert (segment + rest)[1..] == segment[1..] + rest;
    }
  }

  lemma LeadingSlash(s: string)
    ensures Segments(['/'] + s) == Segments(s)
  {
    var path := ['/'] + s;
    assert SegmentEnd(path) == 0 && path[1..] == s;
  }

  lemma FirstSegment(segment: string, s: string)
    requires segment != "" && '/' !in segment && (s == "" || s[0] == '/')
    ensures Segments(segment + s) == [segment] + Segments(s)
  {
    var path, n := segment + s, |segment|;
    SegmentEndOf(segment, s);
    assert path[..n] == segment;
    if s == "" {
      assert Segments(s) == [];
    } else {
      assert path[n + 1..] == s[1..];
      assert s == ['/'] + s[1..];
      LeadingSlash(s[1..]);
    }
  }

  predicate AreSegments(segments: seq<string>) {
    forall i :: 0 <= i < |segments| ==> segments[i] != "" && '/' !in segments[i]
  }

  /** Joining segments with slashes and splitting again gives the segments back. */
  lemma {:induction false} SegmentsOfJoin(segments: seq<string>)
    requires AreSegments(segments)
    ensures Segments(Join(segments)) == segments
  {
    hide Segments, SegmentEnd;
    if segments == [] {
      SegmentsOfNothing();
    } else {
      var first, rest := segments[0], Join(segments[1..]);
      SegmentsOfJoin(segments[1..]);
      assert Join(segments) == ['/'] + (first + rest);
      LeadingSlash(first + rest);
      FirstSegment(first, rest);
    }
  }

  lemma SegmentsOfNothing()
    ensures Segments("") == []
  {
  }

  // ---------------------------------------------------------------- templates

  datatype Endpoint = Endpoint(
    path: string, verb: HttpMethod, backend: string, description: string, requiresAuth: bool,
    schemas: seq<Schema>,
    segments: seq<string>, isParameter: seq<bool>, names: seq<string>)

  predicate IsValid(e: Endpoint) {
    e.path != "" && e.verb != Unknown
  }

  function KeyOf(e: Endpoint): string {
    RouteKey(e.verb, e.path)
  }

  /** The three segment vectors run in parallel. */
  predicate Shaped(e: Endpoint) {
    |e.segments| == |e.isParameter| == |e.names|
  }

  predicate IsPlaceholder(segment: string) {
    segment != "" && segment[0] == '{' && segment[|segment| - 1] == '}'
  }

  function PlaceholderName(segment: string): string {
    if IsPlaceholder(segment) then segment[1..|segment| - 1] else ""
  }

  /** What `ParsePathSegments` makes of the path. */
  predicate Built(e: Endpoint) {
    && Shaped(e)
    && e.segments == Segments(e.path)
    && (forall i :: 0 <= i < |e.segments| ==> e.isParameter[i] == IsPlaceholder(e.segments[i]))
    && (forall i :: 0 <= i < |e.segments| ==> e.names[i] == PlaceholderName(e.segments[i]))
  }

  method SplitPath(path: string) returns (segments: seq<string>)
    ensures segments == Segments(path)
  {
    hide Segments, SegmentEnd;
    segments := [];
    var i := 0;
    assert path[0..] == path;
    while i < |path|
      invariant 0 <= i <= |path|
      invariant segments + Segments(path[i..]) == Segments(path)
    {
      SegmentsStep(path, i);
      var n := SegmentEnd(path[i..]);
      var segment := path[i..i + n];
      if segment != "" {
        segments := segments + [segment];
      }
      i := if i + n < |path| then i + n + 1 else |path|;
    }
    assert path[i..] == "";
    SegmentsOfNothing();
  }

  lemma UnfoldSegments(s: string)
    ensures var n := SegmentEnd(s);
            Segments(s) == (if n > 0 then [s[..n]] else []) + (if n < |s| then Segments(s[n + 1..]) else [])
  {
    hide SegmentEnd;
  }

  /** One turn of the splitting loop. */
  lemma SegmentsStep(path: string, i: nat)
    requires i < |path|
    ensures var n := SegmentEnd(path[i..]);
            var next := if i + n < |path| then i + n + 1 else |path|;
            && i + n <= |path|
            && Segments(path[i..]) == (if n > 0 then [path[i..i + n]] else []) + Segments(path[next..])
  {
    hide *;
    var rest := path[i..];
    var n := SegmentEnd(rest);
    UnfoldSegments(rest);
    assert rest[..n] == path[i..i + n];
    if n < |rest| {
      assert rest[n + 1..] == path[i + n + 1..];
    } else {
      assert path[|path|..] == "";
      SegmentsOfNothing();
    }
  }

  /** `EndpointDefinitionBuilder::Build`: the segment vectors are computed afresh from the path. */
  method ParsePathSegments(e: Endpoint) returns (r: Endpoint)
    ensures Built(r) && r == e.(segments := r.segments, isParameter := r.isParameter, names := r.names)
  {
    hide Segments;
    var segments := SplitPath(e.path);
    var isParameter: seq<bool>, names: seq<string> := [], [];
    for i := 0 to |segments|
      invariant |isParameter| == |names| == i
      invariant forall j :: 0 <= j < i ==> isParameter[j] == IsPlaceholder(segments[j])
      invariant forall j :: 0 <= j < i ==> names[j] == PlaceholderName(segments[j])
    {
      var segment := segments[i];
      if segment[0] == '{' && segment[|segment| - 1] == '}' {
        isParameter, names := isParameter + [true], names + [segment[1..|segment| - 1]];
      } else {
        isParameter, names := isParameter + [false], names + [""];
      }
    }
    r := e.(segments := segments, isParameter := isParameter, names := names);
  }

  // ---------------------------------------------------------------- matching

  predicate Matches(e: Endpoint, request: seq<string>)
    requires Shaped(e)
  {
    && |request| == |e.segments|
    && forall i :: 0 <= i < |request| && !e.isParameter[i] ==> e.segments[i] == request[i]
  }

  /** The parameters bound by the first `n` segments; a repeated name keeps its last value. */
  function Bindings(e: Endpoint, request: seq<string>, n: nat): map<string, string>
    requires Shaped(e) && |request| == |e.segments| && n <= |request|
  {
    if n == 0 then map[]
    else
      var before := Bindings(e, request, n - 1);
      if e.isParameter[n - 1] then before[e.names[n - 1] := request[n - 1]] else before
  }

  /**
   On a match the parameter map is exactly the template's bindings, whatever it held before; it is
   left alone when the number of segments differs.
   */
  method MatchesPath(e: Endpoint, path: string, before: map<string, string>)
    returns (ok: bool, parameters: map<string, string>)
    requires Shaped(e)
    ensures ok <==> Matches(e, Segments(path))
    ensures ok ==> parameters == Bindings(e, Segments(path), |e.segments|)
    ensures |Segments(path)| != |e.segments| ==> parameters == before
  {
    hide Segments;
    parameters := before;
    var request := SplitPath(path);
    ok := false;
    if |request| == |e.segments| {
      ok, parameters := true, map[];
      var i := 0;
      while i < |e.segments| && ok
        invariant 0 <= i <= |request|
        invariant ok ==> parameters == Bindings(e, request, i)
        invariant ok ==> forall j :: 0 <= j < i && !e.isParameter[j] ==> e.segments[j] == request[j]
        invariant !ok ==> !Matches(e, request)
      {
        if e.isParameter[i] {
          parameters := parameters[e.names[i] := request[i]];
        } else if e.segments[i] != request[i] {
          ok := false;
        }
        i := i + 1;
      }
    }
  }

  /** Every template matches its own text. */
  lemma TemplateMatchesItself(e: Endpoint)
    requires Built(e)
    ensures Matches(e, Segments(e.path))
  {
  }

  // ---------------------------------------------------------------- extraction and substitution

  predicate IsParameterAt(e: Endpoint, i: int)
    requires Shaped(e)
  {
    0 <= i < |e.segments| && e.isParameter[i]
  }

  lemma DistinctNamesAgree(e: Endpoint, request: seq<string>)
    requires Shaped(e) && |request| == |e.segments|
    requires forall i, j :: IsParameterAt(e, i) && IsParameterAt(e, j) && i < j ==> e.names[i] != e.names[j]
    ensures Agreeing(e, request)
  {
  }

  /** The template with its placeholders replaced. */
  function Substitute(e: Endpoint, parameters: map<string, string>): (r: seq<string>)
    requires Shaped(e)
    requires forall i :: IsParameterAt(e, i) ==> e.names[i] in parameters
    ensures |r| == |e.segments|
  {
    seq(|e.segments|, i requires 0 <= i < |e.segments| =>
      if IsParameterAt(e, i) then parameters[e.names[i]] else e.segments[i])
  }

  /** Placeholders of the same name stand for the same text. */
  ghost predicate Agreeing(e: Endpoint, request: seq<string>)
    requires Shaped(e) && |request| == |e.segments|
  {
    forall i, j :: IsParameterAt(e, i) && IsParameterAt(e, j) && i < j && e.names[i] == e.names[j]
                   ==> request[i] == request[j]
  }

  /** The bound names are the template's, and each has the value of the last placeholder of that name. */
  lemma BindingsMeaning(e: Endpoint, request: seq<string>, n: nat)
    requires Shaped(e) && |request| == |e.segments| && n <= |request|
    ensures forall name :: name in Bindings(e, request, n) <==>
              exists i :: IsParameterAt(e, i) && i < n && e.names[i] == name
    ensures forall i :: IsParameterAt(e, i) && i < n && (forall j :: IsParameterAt(e, j) && i < j < n ==> e.names[j] != e.names[i])
              ==> Bindings(e, request, n)[e.names[i]] == request[i]
  {
    hide Bindings;
    BoundNames(e, request, n);
    forall i | IsParameterAt(e, i) && i < n && (forall j :: IsParameterAt(e, j) && i < j < n ==> e.names[j] != e.names[i])
      ensures Bindings(e, request, n)[e.names[i]] == request[i]
    {
      LastBinding(e, request, n, i);
    }
  }

  lemma {:induction false} BoundNames(e: Endpoint, request: seq<string>, n: nat)
    requires Shaped(e) && |request| == |e.segments| && n <= |request|
    ensures forall name :: name in Bindings(e, request, n) <==>
              exists i :: IsParameterAt(e, i) && i < n && e.names[i] == name
  {
    if n > 0 {
      BoundNames(e, request, n - 1);
      assert IsParameterAt(e, n - 1) <==> e.isParameter[n - 1];
    }
  }

  lemma {:induction false} LastBinding(e: Endpoint, request: seq<string>, n: nat, i: int)
    requires Shaped(e) && |request| == |e.segments| && n <= |request| && IsParameterAt(e, i) && i < n
    requires forall j :: IsParameterAt(e, j) && i < j < n ==> e.names[j] != e.names[i]
    ensures e.names[i] in Bindings(e, request, n) && Bindings(e, request, n)[e.names[i]] == request[i]
  {
    if i < n - 1 {
      LastBinding(e, request, n - 1, i);
      assert IsParameterAt(e, n - 1) ==> e.names[n - 1] != e.names[i];
    }
  }

  lemma {:induction false} BindingsAgree(e: Endpoint, request: seq<string>, n: nat)
    requires Shaped(e) && |request| == |e.segments| && n <= |request| && Agreeing(e, request)
    ensures forall i :: IsParameterAt(e, i) && i < n ==>
              e.names[i] in Bindings(e, request, n) && Bindings(e, request, n)[e.names[i]] == request[i]
  {
    if n > 0 {
      BindingsAgree(e, request, n - 1);
      if e.isParameter[n - 1] {
        assert IsParameterAt(e, n - 1);
      }
    }
  }

  /**
   Extraction can be undone: substituting the extracted values into the template rebuilds the
   request's segments, and joining them a path that splits into them, exactly when placeholders
   sharing a name were given the same text. Distinct placeholder names always satisfy this.
   */
  lemma ExtractionInvertible(e: Endpoint, path: string)
    requires Shaped(e) && Matches(e, Segments(path))
    ensures var request := Segments(path);
            var m := Bindings(e, request, |request|);
            && (forall i :: IsParameterAt(e, i) ==> e.names[i] in m)
            && (Substitute(e, m) == request <==> Agreeing(e, request))
            && (Agreeing(e, request) ==> Segments(Join(Substitute(e, m))) == Segments(path))
  {
    hide Segments, Join;
    var request := Segments(path);
    SegmentsOfJoin(request);
    var n := |request|;
    var m := Bindings(e, request, n);
    BindingsMeaning(e, request, n);
    if Agreeing(e, request) {
      BindingsAgree(e, request, n);
      assert Substitute(e, m) == request;
    } else {
      var i, j :| IsParameterAt(e, i) && IsParameterAt(e, j) && i < j && e.names[i] == e.names[j] && request[i] != request[j];
      assert Substitute(e, m)[i] == Substitute(e, m)[j] == m[e.names[i]];
    }
  }

  lemma JoinTwo(a: string, b: string)
    requires a != "" && '/' !in a && b != "" && '/' !in b
    ensures Segments("/" + a + "/" + b) == [a, b]
  {
    hide Segments;
    assert [b][1..] == [] && Join([b]) == "/" + b + "";
    assert [a, b][1..] == [b] && Join([a, b]) == "/" + a + Join([b]);
    assert "/" + a + "/" + b == "/" + a + ("/" + b + "");
    SegmentsOfJoin([a, b]);
  }

  /** It fails for a template that uses a name twice when the request has two different texts there. */
  lemma RepeatedNameLosesText(e: Endpoint, placeholder: string, p: string, q: string)
    requires Built(e) && e.segments == [placeholder, placeholder] && IsPlaceholder(placeholder) && p != q
    ensures var request := [p, q]; var m := Bindings(e, request, 2);
            && Matches(e, request) && m == map[PlaceholderName(placeholder) := q]
            && (forall i :: IsParameterAt(e, i) ==> e.names[i] in m)
            && Substitute(e, m) == [q, q] && !Agreeing(e, request)
  {
    hide Segments, IsPlaceholder, PlaceholderName;
    var name := PlaceholderName(placeholder);
    assert e.names == [name, name] && e.isParameter == [true, true];
    assert Bindings(e, [p, q], 1) == map[name := p];
    assert IsParameterAt(e, 0) && IsParameterAt(e, 1);
  }

  /** For example the template `/{x}/{x}` and the request `/p/q`. */
  lemma RepeatedNameExample(e: Endpoint)
    requires Built(e) && e.path == "/{x}/{x}"
    ensures Segments("/p/q") == ["p", "q"] && Matches(e, ["p", "q"]) && !Agreeing(e, ["p", "q"])
  {
    hide Segments;
    JoinTwo("{x}", "{x}");
    JoinTwo("p", "q");
    assert "/" + "{x}" + "/" + "{x}" == "/{x}/{x}" && "/" + "p" + "/" + "q" == "/p/q";
    RepeatedNameLosesText(e, "{x}", "p", "q");
  }

  // ---------------------------------------------------------------- templates as they are written

  /** A part of a template, as the author of an endpoint means it. */
  datatype Part = Literal(text: string) | Placeholder(name: string)

  function PartText(p: Part): string {
    match p
    case Literal(text) => text
    case Placeholder(name) => "{" + name + "}"
  }

  /** The path a template is written as. */
  function Template(parts: seq<Part>): string {
    if parts == [] then "" else "/" + PartText(parts[0]) + Template(parts[1..])
  }

  /** A part stands between slashes; a literal is not in braces on both sides. */
  predicate PartOk(p: Part) {
    match p
    case Literal(text) => text != "" && '/' !in text && !(text[0] == '{' && text[|text| - 1] == '}')
    case Placeholder(name) => '/' !in name
  }

  predicate PartsOk(parts: seq<Part>) {
    forall i :: 0 <= i < |parts| ==> PartOk(parts[i])
  }

  lemma PartIsSegment(p: Part)
    requires PartOk(p)
    ensures PartText(p) != "" && '/' !in PartText(p)
    ensures IsPlaceholder(PartText(p)) <==> p.Placeholder?
    ensures p.Placeholder? ==> PlaceholderName(PartText(p)) == p.name
  {
    if p.Placeholder? {
      var t := PartText(p);
      assert t[1..|t| - 1] == p.name;
    }
  }

  lemma {:induction false} TemplateSegments(parts: seq<Part>)
    requires PartsOk(parts)
    ensures |Segments(Template(parts))| == |parts|
    ensures forall i :: 0 <= i < |parts| ==> Segments(Template(parts))[i] == PartText(parts[i])
  {
    hide Segments, PartText, PartOk;
    if parts == [] {
      SegmentsOfNothing();
    } else {
      var first, rest := PartText(parts[0]), Template(parts[1..]);
      PartIsSegment(parts[0]);
      TemplateSegments(parts[1..]);
      assert Template(parts) == ['/'] + (first + rest);
      LeadingSlash(first + rest);
      FirstSegment(first, rest);
    }
  }

  lemma WrittenShape(e: Endpoint, parts: seq<Part>)
    requires Built(e) && e.path == Template(parts) && PartsOk(parts)
    ensures |e.segments| == |parts|
    ensures forall i :: 0 <= i < |parts| ==>
              && e.segments[i] == PartText(parts[i]) && (IsParameterAt(e, i) <==> parts[i].Placeholder?)
              && (parts[i].Placeholder? ==> e.names[i] == parts[i].name)
  {
    hide Segments, IsPlaceholder, PlaceholderName, PartText, PartOk;
    TemplateSegments(parts);
    forall i | 0 <= i < |parts|
      ensures e.segments[i] == PartText(parts[i]) && (IsParameterAt(e, i) <==> parts[i].Placeholder?)
      ensures parts[i].Placeholder? ==> e.names[i] == parts[i].name
    {
      PartIsSegment(parts[i]);
    }
  }

  /** The last of the placeholders with its name. */
  predicate LastOfName(parts: seq<Part>, i: int) {
    0 <= i < |parts| && parts[i].Placeholder? && forall j :: i < j < |parts| ==> parts[j] != parts[i]
  }

  /**
   What a written template matches and what it binds, in the author's terms: as many segments as parts,
   each literal part with its own text; then exactly the written names, without their braces, are bound,
   each to the request's segment at the place of the last placeholder of that name.
   */
  lemma WrittenTemplate(e: Endpoint, parts: seq<Part>, path: string)
    requires Built(e) && e.path == Template(parts) && PartsOk(parts)
    ensures var request := Segments(path);
            Matches(e, request) <==>
              |request| == |parts| && forall i :: 0 <= i < |parts| && parts[i].Literal? ==> request[i] == parts[i].text
    ensures Matches(e, Segments(path)) ==>
              var request := Segments(path);
              var m := Bindings(e, request, |e.segments|);
              && (forall name :: name in m <==> Placeholder(name) in parts)
              && (forall i :: LastOfName(parts, i) ==> parts[i].name in m && m[parts[i].name] == request[i])
  {
    WrittenShape(e, parts);
    hide *;
    var request := Segments(path);
    WrittenMatches(e, parts, request);
    if Matches(e, request) {
      MatchLength(e, request);
      WrittenBindings(e, parts, request);
    }
  }

  lemma MatchLength(e: Endpoint, request: seq<string>)
    requires Shaped(e) && Matches(e, request)
    ensures |request| == |e.segments|
  {
  }

  lemma WrittenMatches(e: Endpoint, parts: seq<Part>, request: seq<string>)
    requires Shaped(e) && |e.segments| == |parts|
    requires forall i :: 0 <= i < |parts| ==> e.segments[i] == PartText(parts[i])
    requires forall i :: 0 <= i < |parts| ==> (IsParameterAt(e, i) <==> parts[i].Placeholder?)
    ensures Matches(e, request) <==>
              |request| == |parts| && forall i :: 0 <= i < |parts| && parts[i].Literal? ==> request[i] == parts[i].text
  {
    assert forall i :: 0 <= i < |parts| && parts[i].Literal? ==> !e.isParameter[i] && e.segments[i] == parts[i].text;
    assert forall i :: 0 <= i < |parts| && !e.isParameter[i] ==> parts[i].Literal?;
  }

  lemma WrittenBindings(e: Endpoint, parts: seq<Part>, request: seq<string>)
    requires Shaped(e) && |e.segments| == |parts| == |request|
    requires forall i :: 0 <= i < |parts| ==> (IsParameterAt(e, i) <==> parts[i].Placeholder?)
    requires forall i :: 0 <= i < |parts| && parts[i].Placeholder? ==> e.names[i] == parts[i].name
    ensures var m := Bindings(e, request, |e.segments|);
            && (forall name :: name in m <==> Placeholder(name) in parts)
            && (forall i :: LastOfName(parts, i) ==> parts[i].name in m && m[parts[i].name] == request[i])
  {
    hide Bindings;
    var n := |e.segments|;
    BindingsMeaning(e, request, n);
    var m := Bindings(e, request, n);
    forall name ensures name in m <==> Placeholder(name) in parts {
      if name in m {
        var i :| IsParameterAt(e, i) && i < n && e.names[i] == name;
        assert parts[i] == Placeholder(name);
      }
      if Placeholder(name) in parts {
        var i :| 0 <= i < |parts| && parts[i] == Placeholder(name);
        assert IsParameterAt(e, i) && e.names[i] == name;
      }
    }
    forall i | LastOfName(parts, i) ensures parts[i].name in m && m[parts[i].name] == request[i] {
      assert IsParameterAt(e, i);
      forall j | IsParameterAt(e, j) && i < j < n ensures e.names[j] != e.names[i] {
        assert parts[j] != parts[i];
      }
    }
  }
}
