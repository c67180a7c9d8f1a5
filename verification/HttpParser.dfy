/**
 Parsing an HTTP request, and parsing it again as more of it arrives.

 The connection handler parses the growing buffer into the same request object, whose maps are not
 cleared. What a parse does to a request is `ParseInto`; the theorem is that the repeated parse
 ends where a single parse of all the bytes would have.
 */
module HttpParser {
  import opened Text
  import opened Endpoints
  import opened Http

  /** A parse may succeed, fail after changing the request, or raise an exception. */
  datatype Outcome = Good(request: HttpRequest) | Bad(request: HttpRequest) | Raised

  // ---------------------------------------------------------------- searching

  predicate OccursAt(s: string, pattern: string, i: int) {
    0 <= i <= |s| - |pattern| && s[i..i + |pattern|] == pattern
  }

  /** `std::string::find`: the first occurrence. */
  function Find(s: string, pattern: string): (r: Option<nat>)
    ensures r.Some? ==> OccursAt(s, pattern, r.value)
    ensures forall j :: 0 <= j && (r.None? || j < r.value) ==> !OccursAt(s, pattern, j)
  {
    FindFrom(s, pattern, 0)
  }

  function FindFrom(s: string, pattern: string, i: nat): (r: Option<nat>)
    ensures r.Some? ==> i <= r.value && OccursAt(s, pattern, r.value)
    ensures forall j :: i <= j && (r.None? || j < r.value) ==> !OccursAt(s, pattern, j)
    decreases |s| - i
  {
    if i + |pattern| > |s| then None
    else if s[i..i + |pattern|] == pattern then Some(i)
    else FindFrom(s, pattern, i + 1)
  }

  /** More text at the end does not move the first occurrence. */
  lemma FindIsStable(s: string, more: string, pattern: string)
    requires Find(s, pattern).Some?
    ensures Find(s + more, pattern) == Find(s, pattern)
  {
    var i := Find(s, pattern).value;
    var t := s + more;
    forall j | 0 <= j <= i ensures OccursAt(t, pattern, j) <==> OccursAt(s, pattern, j) {
      assert t[j..j + |pattern|] == s[j..j + |pattern|];
    }
    var r := Find(t, pattern);
    assert OccursAt(t, pattern, i);
    assert r.Some? && OccursAt(t, pattern, r.value);
  }

  // ---------------------------------------------------------------- numbers in headers

  /** `std::stoul` in base 10, sign included; `None` where it throws. */
  function ReadUnsigned(s: string): Option<int> {
    var t := SkipCSpace(s);
    var negative := t != "" && t[0] == '-';
    var u := if t != "" && (t[0] == '-' || t[0] == '+') then t[1..] else t;
    var digits := u[..DigitRun(u)];
    if digits == "" || DecimalValue(digits) >= 0x1_0000_0000_0000_0000 then None
    else Some(if negative then 0 - DecimalValue(digits) else DecimalValue(digits))
  }

  // ---------------------------------------------------------------- the query string

  /** Percent-decoding from position `i`, with the text decoded so far; `None` where two characters are no hexadecimal number. */
  function UrlDecodeFrom(s: string, i: nat, decoded: string): Option<string>
    decreases |s| - i
  {
    if i >= |s| then Some(decoded)
    else if s[i] == '%' && i + 2 < |s| then
      match ReadHex(s[i + 1..i + 3])
      case None => None
      case Some(n) => UrlDecodeFrom(s, i + 3, decoded + [(n % 256) as char])
    else UrlDecodeFrom(s, i + 1, decoded + [if s[i] == '+' then ' ' else s[i]])
  }

  function UrlDecode(s: string): Option<string> {
    UrlDecodeFrom(s, 0, "")
  }

  /** The text up to a separator, and the text after it. */
  function Before(s: string, separator: string): (r: string)
    ensures |r| <= |s|
  {
    match Find(s, separator)
    case None => s
    case Some(i) => s[..i]
  }

  function After(s: string, separator: string): (r: string)
    requires separator != ""
    ensures s != "" ==> |r| < |s|
  {
    match Find(s, separator)
    case None => ""
    case Some(i) => s[i + |separator|..]
  }

  /** The entry one `key=value` pair sets; no pair, no entry. The first `None` is an exception. */
  function QueryEntry(pair: string): Option<Option<(string, string)>> {
    if pair == "" then Some(None)
    else
      match (UrlDecode(Before(pair, "=")), UrlDecode(After(pair, "=")))
      case (Some(key), Some(value)) => Some(Some((key, value)))
      case _ => None
  }

  function WithEntry(m: map<string, string>, entry: Option<(string, string)>): map<string, string> {
    match entry
    case None => m
    case Some(e) => m[e.0 := e.1]
  }

  function ParseQuery(q: string, m: map<string, string>): Option<map<string, string>>
    decreases |q|
  {
    if q == "" then Some(m)
    else
      match QueryEntry(Before(q, "&"))
      case None => None
      case Some(entry) => ParseQuery(After(q, "&"), WithEntry(m, entry))
  }

  // ---------------------------------------------------------------- headers

  function Lower(c: char): char {
    if 'A' <= c <= 'Z' then (c as int + 32) as char else c
  }

  function ToLowerCase(s: string): string {
    seq(|s|, i requires 0 <= i < |s| => Lower(s[i]))
  }

  function TrimLeft(s: string): string {
    if s != "" && (s[0] == ' ' || s[0] == '\t') then TrimLeft(s[1..]) else s
  }

  function StripReturn(line: string): string {
    if line != "" && line[|line| - 1] == '\r' then line[..|line| - 1] else line
  }

  /** The entry one header line sets. */
  function HeaderEntry(line: string): Option<(string, string)> {
    var text := StripReturn(line);
    match Find(text, ":")
    case None => None
    case Some(i) => Some((ToLowerCase(text[..i]), TrimLeft(text[i + 1..])))
  }

  function ParseHeaders(block: string, m: map<string, string>): map<string, string>
    decreases |block|
  {
    if block == "" then m
    else ParseHeaders(After(block, "\n"), WithEntry(m, HeaderEntry(Before(block, "\n"))))
  }

  // ---------------------------------------------------------------- the request

  /** The request line. A query string left from an earlier parse stays when the line has none. */
  function ParseRequestLine(line: string, r: HttpRequest): Outcome {
    match Find(line, " ")
    case None => Bad(r)
    case Some(i) =>
      var r1 := r.(verb := MethodOf(line[..i]));
      match FindFrom(line, " ", i + 1) {
        case None => Bad(r1)
        case Some(j) =>
          var uri := line[i + 1..j];
          var r2 := r1.(version := line[j + 1..]);
          match Find(uri, "?") {
            case None => Good(r2.(path := uri))
            case Some(k) =>
              match ParseQuery(uri[k + 1..], r.query) {
                case None => Raised
                case Some(query) => Good(r2.(path := uri[..k], queryString := uri[k + 1..], query := query))
              }
          }
      }
  }

  /** The content length of parsed headers; `None` where `std::stoul` throws. */
  function ContentLength(headers: map<string, string>): Option<int> {
    if "content-length" !in headers then Some(0)
    else
      match ReadUnsigned(headers["content-length"])
      case None => None
      case Some(n) => Some(n % 0x1_0000_0000)
  }

  /** The body is taken once enough of it has arrived. */
  function WithBody(r: HttpRequest, body: string): HttpRequest {
    if r.contentLength > 0 then
      if |body| >= r.contentLength then r.(body := body[..r.contentLength], complete := true) else r
    else r.(complete := true)
  }

  /** The request line and the headers. */
  function ParseHead(head: string, r: HttpRequest): Outcome {
    match Find(head, "\r\n")
    case None => Bad(r)
    case Some(i) =>
      match ParseRequestLine(head[..i], r) {
        case Good(r1) =>
          var headers := ParseHeaders(head[i + 2..], r1.headers);
          match ContentLength(headers) {
            case None => Raised
            case Some(n) => Good(r1.(headers := headers, contentLength := n))
          }
        case Bad(r1) => Bad(r1)
        case Raised => Raised
      }
  }

  function Fresh(raw: string, r: HttpRequest): HttpRequest {
    r.(raw := raw, complete := false, contentLength := 0, verb := Unknown)
  }

  /** `HttpParser::Parse`, into a request that may hold what an earlier parse left. */
  function ParseInto(raw: string, r: HttpRequest): Outcome {
    match Find(raw, "\r\n\r\n")
    case None => Bad(Fresh(raw, r))
    case Some(i) =>
      match ParseHead(raw[..i], Fresh(raw, r)) {
        case Good(r1) => Good(WithBody(r1, raw[i + 4..]))
        case other => other
      }
  }

  // ---------------------------------------------------------------- parsing into a used request

  /** Setting the query entries over a map overrides it with the entries set over nothing. */
  lemma {:induction false} QueryOverrides(q: string, m: map<string, string>)
    ensures ParseQuery(q, m).Some? <==> ParseQuery(q, map[]).Some?
    ensures ParseQuery(q, m).Some? ==> ParseQuery(q, m).value == m + ParseQuery(q, map[]).value
    decreases |q|
  {
    hide QueryEntry, Before, After;
    if q != "" && QueryEntry(Before(q, "&")).Some? {
      var entry := QueryEntry(Before(q, "&")).value;
      QueryOverrides(After(q, "&"), WithEntry(m, entry));
      QueryOverrides(After(q, "&"), WithEntry(map[], entry));
    }
  }

  lemma {:induction false} HeadersOverride(block: string, m: map<string, string>)
    ensures ParseHeaders(block, m) == m + ParseHeaders(block, map[])
    decreases |block|
  {
    hide HeaderEntry, Before, After;
    if block != "" {
      var entry := HeaderEntry(Before(block, "\n"));
      HeadersOverride(After(block, "\n"), WithEntry(m, entry));
      HeadersOverride(After(block, "\n"), WithEntry(map[], entry));
    }
  }

  /** Parsing the same request line again, into the outcome of the first time, changes nothing. */
  lemma RequestLineAgain(line: string, r: HttpRequest, s: HttpRequest)
    requires ParseRequestLine(line, r).Good?
    requires var p := ParseRequestLine(line, r).request;
             s.path == p.path && s.queryString == p.queryString && s.version == p.version && s.query == p.query
    ensures var p := ParseRequestLine(line, r).request;
            ParseRequestLine(line, s) == Good(s.(verb := p.verb))
  {
    hide ParseQuery, MethodOf, Find, FindFrom;
    var i := Find(line, " ").value;
    var j := FindFrom(line, " ", i + 1).value;
    var uri := line[i + 1..j];
    if Find(uri, "?").Some? {
      QueryAgain(uri[Find(uri, "?").value + 1..], r.query);
    }
  }

  /** Parsing a query again into its own result changes nothing. */
  lemma QueryAgain(q: string, m: map<string, string>)
    requires ParseQuery(q, m).Some?
    ensures ParseQuery(q, ParseQuery(q, m).value) == ParseQuery(q, m)
  {
    hide ParseQuery;
    QueryOverrides(q, m);
    QueryOverrides(q, ParseQuery(q, m).value);
    var delta := ParseQuery(q, map[]).value;
    assert m + delta + delta == m + delta;
  }

  /** What a parse of the head leaves alone. */
  lemma HeadKeeps(head: string, r: HttpRequest)
    requires ParseHead(head, r).Good?
    ensures var p := ParseHead(head, r).request;
            p.body == r.body && p.raw == r.raw && p.complete == r.complete && p.pathParameters == r.pathParameters
  {
    hide ParseRequestLine, ParseHeaders, ContentLength, Find;
    RequestLineKeepsRest(head[..Find(head, "\r\n").value], r);
  }

  lemma RequestLineKeepsRest(line: string, r: HttpRequest)
    requires ParseRequestLine(line, r).Good?
    ensures var p := ParseRequestLine(line, r).request;
            p.body == r.body && p.raw == r.raw && p.complete == r.complete && p.pathParameters == r.pathParameters
  {
    hide ParseQuery, MethodOf, Find, FindFrom;
  }

  /** What the second parse finds of the first one in the request. */
  predicate Holds(s: HttpRequest, p: HttpRequest) {
    && s.path == p.path && s.queryString == p.queryString && s.version == p.version && s.query == p.query
    && s.headers == p.headers && s.pathParameters == p.pathParameters
  }

  lemma HeadAgain(head: string, r: HttpRequest, s: HttpRequest)
    requires ParseHead(head, r).Good? && Holds(s, ParseHead(head, r).request)
    ensures var p := ParseHead(head, r).request;
            ParseHead(head, s) == Good(s.(verb := p.verb, contentLength := p.contentLength))
  {
    var i := Find(head, "\r\n").value;
    var r1 := ParseRequestLine(head[..i], r).request;
    RequestLineKeeps(head[..i], r);
    RequestLineAgain(head[..i], r, s);
    hide ParseRequestLine, ParseHeaders, ContentLength;
    HeadersOverride(head[i + 2..], r1.headers);
    HeadersOverride(head[i + 2..], s.headers);
    var delta := ParseHeaders(head[i + 2..], map[]);
    assert r1.headers + delta + delta == r1.headers + delta;
  }

  lemma RequestLineKeeps(line: string, r: HttpRequest)
    requires ParseRequestLine(line, r).Good?
    ensures ParseRequestLine(line, r).request.headers == r.headers
  {
    hide ParseQuery, MethodOf;
  }

  /** The head of the buffer is found again when more bytes have arrived. */
  lemma HeadIsStable(raw: string, more: string)
    requires Find(raw, "\r\n\r\n").Some?
    ensures var i := Find(raw, "\r\n\r\n").value;
            && Find(raw + more, "\r\n\r\n") == Some(i)
            && (raw + more)[..i] == raw[..i] && (raw + more)[i + 4..] == raw[i + 4..] + more
  {
    FindIsStable(raw, more, "\r\n\r\n");
  }

  /** A successful parse decides which head is parsed from then on. */
  lemma GoodParse(raw: string, r: HttpRequest)
    requires ParseInto(raw, r).Good?
    ensures Find(raw, "\r\n\r\n").Some?
    ensures var i := Find(raw, "\r\n\r\n").value;
            ParseHead(raw[..i], Fresh(raw, r)).Good?
            && ParseInto(raw, r) == Good(WithBody(ParseHead(raw[..i], Fresh(raw, r)).request, raw[i + 4..]))
  {
    hide ParseHead, WithBody;
  }

  /**
   The step of the incremental parse: once a first parse succeeded, parsing the longer buffer into
   its result gives what parsing the longer buffer into an untouched request gives.
   */
  lemma ReparseIsFresh(raw: string, more: string)
    requires ParseInto(raw, Blank).Good?
    ensures ParseInto(raw + more, Blank).Good?
    ensures ParseInto(raw + more, ParseInto(raw, Blank).request) == ParseInto(raw + more, Blank)
  {
    GoodParse(raw, Blank);
    HeadIsStable(raw, more);
    hide Find, ParseHead;
    var i := Find(raw, "\r\n\r\n").value;
    var head := raw[..i];
    var p := ParseHead(head, Fresh(raw, Blank)).request;
    HeadKeeps(head, Fresh(raw, Blank));
    FreshAnyRaw(head, raw, raw + more);
    var first := ParseInto(raw, Blank).request;
    HeadAgain(head, Fresh(raw, Blank), Fresh(raw + more, first));
  }

  /** The raw copy takes no part in parsing the head. */
  lemma FreshAnyRaw(head: string, raw: string, raw': string)
    requires ParseHead(head, Fresh(raw, Blank)).Good?
    ensures ParseHead(head, Fresh(raw', Blank)) == Good(ParseHead(head, Fresh(raw, Blank)).request.(raw := raw'))
  {
    hide ParseHeaders, ContentLength, ParseQuery, MethodOf, Find, FindFrom;
  }

  /** Once a request is complete, further bytes change nothing but the raw copy. */
  lemma CompleteStaysSame(raw: string, more: string)
    requires ParseInto(raw, Blank).Good? && ParseInto(raw, Blank).request.complete
    ensures ParseInto(raw + more, Blank) == Good(ParseInto(raw, Blank).request.(raw := raw + more))
  {
    GoodParse(raw, Blank);
    HeadIsStable(raw, more);
    hide Find, ParseHead, WithBody, OccursAt;
    var i := Find(raw, "\r\n\r\n").value;
    var p := ParseHead(raw[..i], Fresh(raw, Blank)).request;
    HeadKeeps(raw[..i], Fresh(raw, Blank));
    FreshAnyRaw(raw[..i], raw, raw + more);
    var body := raw[i + 4..];
    assert ParseInto(raw + more, Blank) == Good(WithBody(p.(raw := raw + more), body + more));
    BodyStaysSame(p, raw + more, body, more);
  }

  /** A body that was complete is not touched by what follows it. */
  lemma BodyStaysSame(p: HttpRequest, raw: string, body: string, more: string)
    requires !p.complete && WithBody(p, body).complete
    ensures WithBody(p.(raw := raw), body + more) == WithBody(p, body).(raw := raw)
  {
    if p.contentLength > 0 {
      assert (body + more)[..p.contentLength] == body[..p.contentLength];
    }
  }

  /**
   The first read decides: a request that arrives in pieces is understood if and only if the first
   piece holds the whole head and a single parse of everything is understood.
   */
  lemma FirstReadDecides(first: string, more: string)
    ensures ParseInto(first, Blank).Good? <==>
            Find(first, "\r\n\r\n").Some? && ParseInto(first + more, Blank).Good?
  {
    if ParseInto(first, Blank).Good? {
      GoodParse(first, Blank);
      ReparseIsFresh(first, more);
    } else if Find(first, "\r\n\r\n").Some? && ParseInto(first + more, Blank).Good? {
      HeadIsStable(first, more);
      GoodParse(first + more, Blank);
      hide Find, ParseHead, WithBody, OccursAt;
      FreshAnyRaw(first[..Find(first, "\r\n\r\n").value], first + more, first);
    }
  }

  // ---------------------------------------------------------------- the methods

  method UrlDecodeText(encoded: string) returns (decoded: Option<string>)
    ensures decoded == UrlDecode(encoded)
  {
    hide ReadHex;
    var text := "";
    var i := 0;
    while i < |encoded|
      invariant 0 <= i
      invariant UrlDecode(encoded) == UrlDecodeFrom(encoded, i, text)
      decreases |encoded| - i
    {
      if encoded[i] == '%' && i + 2 < |encoded| {
        var code := ReadHex(encoded[i + 1..i + 3]);
        if code.None? {
          return None;
        }
        text := text + [(code.value % 256) as char];
        i := i + 3;
      } else if encoded[i] == '+' {
        text := text + [' '];
        i := i + 1;
      } else {
        text := text + [encoded[i]];
        i := i + 1;
      }
    }
    return Some(text);
  }

  method ParseQueryString(queryString: string, before: map<string, string>) returns (r: Option<map<string, string>>)
    ensures r == ParseQuery(queryString, before)
  {
    hide UrlDecode, Find;
    var parameters := before;
    var remaining := queryString;
    while remaining != ""
      invariant ParseQuery(queryString, before) == ParseQuery(remaining, parameters)
      decreases |remaining|
    {
      var pair := Before(remaining, "&");
      var rest := After(remaining, "&");
      if pair != "" {
        var key := UrlDecodeText(Before(pair, "="));
        var value := UrlDecodeText(After(pair, "="));
        if key.None? || value.None? {
          return None;
        }
        parameters := parameters[key.value := value.value];
      }
      remaining := rest;
    }
    return Some(parameters);
  }

  method ParseHeaderBlock(block: string, before: map<string, string>) returns (headers: map<string, string>)
    ensures headers == ParseHeaders(block, before)
  {
    hide Find, ToLowerCase, TrimLeft;
    headers := before;
    var remaining := block;
    while remaining != ""
      invariant ParseHeaders(block, before) == ParseHeaders(remaining, headers)
      decreases |remaining|
    {
      var line := StripReturn(Before(remaining, "\n"));
      var colon := Find(line, ":");
      if colon.Some? {
        headers := headers[ToLowerCase(line[..colon.value]) := TrimLeft(line[colon.value + 1..])];
      }
      remaining := After(remaining, "\n");
    }
  }

  method ParseLine(line: string, before: HttpRequest) returns (r: Outcome)
    ensures r == ParseRequestLine(line, before)
  {
    hide MethodOf, ParseQuery;
    var first := Find(line, " ");
    if first.None? {
      return Bad(before);
    }
    var request := before.(verb := MethodOf(line[..first.value]));
    var second := FindFrom(line, " ", first.value + 1);
    if second.None? {
      return Bad(request);
    }
    var uri := line[first.value + 1..second.value];
    request := request.(version := line[second.value + 1..]);
    var mark := Find(uri, "?");
    if mark.Some? {
      var query := ParseQueryString(uri[mark.value + 1..], request.query);
      if query.None? {
        return Raised;
      }
      request := request.(path := uri[..mark.value], queryString := uri[mark.value + 1..], query := query.value);
    } else {
      request := request.(path := uri);
    }
    return Good(request);
  }

  method Parse(raw: string, before: HttpRequest) returns (r: Outcome)
    ensures r == ParseInto(raw, before)
  {
    hide ParseRequestLine, ParseHeaders, ContentLength;
    var request := Fresh(raw, before);
    var headEnd := Find(raw, "\r\n\r\n");
    if headEnd.None? {
      return Bad(request);
    }
    var head, body := raw[..headEnd.value], raw[headEnd.value + 4..];
    var lineEnd := Find(head, "\r\n");
    if lineEnd.None? {
      return Bad(request);
    }
    var line := ParseLine(head[..lineEnd.value], request);
    match line {
      case Raised => return Raised;
      case Bad(partial) => return Bad(partial);
      case Good(parsed) => request := parsed;
    }
    var headers := ParseHeaderBlock(head[lineEnd.value + 2..], request.headers);
    var length := ContentLength(headers);
    if length.None? {
      return Raised;
    }
    request := request.(headers := headers, contentLength := length.value);
    if request.contentLength > 0 {
      if |body| >= request.contentLength {
        request := request.(body := body[..request.contentLength], complete := true);
      }
    } else {
      request := request.(complete := true);
    }
    return Good(request);
  }

  function Concat(chunks: seq<string>): string {
    if chunks == [] then "" else Concat(chunks[..|chunks| - 1]) + chunks[|chunks| - 1]
  }

  lemma {:induction false} ConcatSplit(chunks: seq<string>, n: nat) returns (more: string)
    requires n <= |chunks|
    ensures Concat(chunks) == Concat(chunks[..n]) + more
    decreases |chunks|
  {
    if n == |chunks| {
      more := "";
      assert chunks[..n] == chunks;
    } else {
      var m := ConcatSplit(chunks[..|chunks| - 1], n);
      assert chunks[..|chunks| - 1][..n] == chunks[..n];
      more := m + chunks[|chunks| - 1];
    }
  }

  /**
   Reading a request: the reads return `chunks`, an empty one meaning that the client closed. When
   the first read holds the whole head, the request is what one parse of everything read gives;
   and if it is complete, what one parse of everything the client ever sends gives.
   */
  method ReceiveRequest(chunks: seq<string>) returns (r: Outcome, used: nat)
    requires chunks != []
    ensures 1 <= used <= |chunks|
    ensures r == ParseInto(Concat(chunks[..used]), Blank)
    ensures r.Good? <==> ParseInto(chunks[0], Blank).Good?
    ensures r.Good? <==> Find(chunks[0], "\r\n\r\n").Some? && ParseInto(Concat(chunks), Blank).Good?
    ensures !r.Good? ==> used == 1 && r == ParseInto(chunks[0], Blank)
    ensures r.Good? && !r.request.complete ==> used == |chunks| || chunks[used] == ""
    ensures r.Good? && r.request.complete ==> ParseInto(Concat(chunks), Blank) == Good(r.request.(raw := Concat(chunks)))
  {
    hide ParseInto;
    var raw := chunks[0];
    used := 1;
    assert chunks[..1][..0] == [] && Concat(chunks[..1]) == "" + raw;
    assert "" + raw == raw;
    r := Parse(raw, Blank);
    ghost var rest := ConcatSplit(chunks, 1);
    FirstReadDecides(raw, rest);
    if !r.Good? {
      return;
    }
    while used < |chunks| && !r.request.complete && chunks[used] != ""
      invariant 1 <= used <= |chunks| && raw == Concat(chunks[..used])
      invariant r.Good? && r == ParseInto(raw, Blank) && ParseInto(chunks[0], Blank).Good?
    {
      assert chunks[..used + 1][..used] == chunks[..used];
      ReparseIsFresh(raw, chunks[used]);
      raw := raw + chunks[used];
      r := Parse(raw, r.request);
      used := used + 1;
    }
    if r.request.complete {
      ghost var more := ConcatSplit(chunks, used);
      CompleteStaysSame(raw, more);
    }
  }
}
