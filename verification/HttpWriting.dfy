/**
 HTTP requests as a client writes them (RFC 9112, sections 3 and 5), and the theorem that the parser
 reads out of them what was written in.
 */
module HttpWriting {
  import opened Text
  import opened Endpoints
  import opened Http
  import opened HttpParser

  const CRLF := "\r\n"

  /** Text that can stand on one line. */
  predicate OneLine(s: string) {
    '\r' !in s && '\n' !in s
  }

  // ---------------------------------------------------------------- finding what was written

  /** A separator is found where it first occurs. */
  lemma FindSeparator(a: string, c: char, b: string)
    requires c !in a
    ensures Find(a + [c] + b, [c]) == Some(|a|)
    ensures Before(a + [c] + b, [c]) == a && After(a + [c] + b, [c]) == b
  {
    var s := a + [c] + b;
    assert OccursAt(s, [c], |a|);
    var i := Find(s, [c]).value;
    assert s[i..i + 1][0] == s[i];
    assert s[..|a|] == a && s[|a| + 1..] == b;
  }

  lemma FindNoSeparator(a: string, c: char)
    requires c !in a
    ensures Find(a, [c]) == None && Before(a, [c]) == a && After(a, [c]) == ""
  {
    forall i ensures !OccursAt(a, [c], i) {
      if 0 <= i < |a| {
        assert a[i..i + 1][0] == a[i];
      }
    }
  }

  lemma FindLineEnd(line: string, rest: string)
    requires OneLine(line)
    ensures Find(line + CRLF + rest, CRLF) == Some(|line|)
  {
    var s := line + CRLF + rest;
    assert s[|line|..|line| + 2] == CRLF;
    assert OccursAt(s, CRLF, |line|);
    var i := Find(s, CRLF).value;
    assert s[i] == s[i..i + 2][0] == '\r';
  }

  const BLANK_LINE := "\r\n\r\n"

  /** The blank line that ends the head is not found across the end of a line that has text after it. */
  lemma FindHeadEnd(line: string, rest: string)
    requires OneLine(line) && rest != "" && rest[0] != '\r' && Find(rest, BLANK_LINE).Some?
    ensures Find(line + CRLF + rest, BLANK_LINE) == Some(|line| + 2 + Find(rest, BLANK_LINE).value)
  {
    var s, n, k := line + CRLF + rest, |line| + 2, Find(rest, BLANK_LINE).value;
    assert s[n] == rest[0];
    forall j | 0 <= j && OccursAt(s, BLANK_LINE, j) ensures n <= j && OccursAt(rest, BLANK_LINE, j - n) {
      assert s[j] == s[j..j + 4][0] == '\r' && s[j + 2] == s[j..j + 4][2] == '\r';
      assert s[j..j + 4] == rest[j - n..j - n + 4];
    }
    assert s[n + k..n + k + 4] == rest[k..k + 4];
    assert OccursAt(s, BLANK_LINE, n + k);
  }

  lemma FindHeadEndHere(line: string, body: string)
    requires OneLine(line)
    ensures Find(line + BLANK_LINE + body, BLANK_LINE) == Some(|line|)
  {
    var s := line + BLANK_LINE + body;
    assert s[|line|..|line| + 4] == BLANK_LINE;
    assert OccursAt(s, BLANK_LINE, |line|);
    var i := Find(s, BLANK_LINE).value;
    assert s[i] == s[i..i + 4][0] == '\r';
  }

  // ---------------------------------------------------------------- the query string

  /** Every byte written as a percent sign and two hexadecimal digits (RFC 3986, section 2.1). */
  function PercentEncode(s: string): (r: string)
    requires IsBytes(s)
    ensures forall c :: c in r ==> c == '%' || IsHex(c)
  {
    if s == "" then ""
    else ['%', HexChar(s[0] as int / 16), HexChar(s[0] as int % 16)] + PercentEncode(s[1..])
  }

  lemma ReadTwoDigits(c: char)
    requires c as int < 256
    ensures ReadHex([HexChar(c as int / 16), HexChar(c as int % 16)]) == Some(c as int)
  {
    var hi, lo := HexChar(c as int / 16), HexChar(c as int % 16);
    var s := [hi, lo];
    assert SkipCSpace(s) == s;
    assert s[1..] == [lo] && [lo][1..] == "";
    assert HexRun([lo], HexValue(hi)) == HexRun("", HexValue(hi) * 16 + HexValue(lo));
    assert HexRun(s, 0) == HexRun([lo], HexValue(hi));
  }

  lemma DecodeOne(before: string, c: char, rest: string, decoded: string)
    requires c as int < 256
    ensures var three := ['%', HexChar(c as int / 16), HexChar(c as int % 16)];
            UrlDecodeFrom(before + (three + rest), |before|, decoded)
            == UrlDecodeFrom(before + three + rest, |before + three|, decoded + [c])
  {
    ReadTwoDigits(c);
    hide ReadHex, HexChar;
    var digits := [HexChar(c as int / 16), HexChar(c as int % 16)];
    var three := ['%', HexChar(c as int / 16), HexChar(c as int % 16)];
    var t, i := before + (three + rest), |before|;
    assert t[i] == '%' && t[i + 1..i + 3] == digits;
    assert t == before + three + rest;
  }

  /** Percent-decoding gives every byte string back. */
  lemma {:induction false} DecodePercent(before: string, s: string, decoded: string)
    requires IsBytes(s)
    ensures UrlDecodeFrom(before + PercentEncode(s), |before|, decoded) == Some(decoded + s)
    decreases |s|
  {
    if s == "" {
      assert decoded + s == decoded;
    } else {
      DecodeOne(before, s[0], PercentEncode(s[1..]), decoded);
      hide UrlDecodeFrom, HexChar;
      var three := ['%', HexChar(s[0] as int / 16), HexChar(s[0] as int % 16)];
      DecodePercent(before + three, s[1..], decoded + [s[0]]);
      assert decoded + [s[0]] + s[1..] == decoded + s;
    }
  }

  lemma UrlDecodeEncoded(s: string)
    requires IsBytes(s)
    ensures UrlDecode(PercentEncode(s)) == Some(s)
  {
    DecodePercent("", s, "");
    assert "" + PercentEncode(s) == PercentEncode(s) && "" + s == s;
  }

  predicate AllBytes(order: seq<(string, string)>) {
    forall i :: 0 <= i < |order| ==> IsBytes(order[i].0) && IsBytes(order[i].1)
  }

  function PairText(p: (string, string)): string
    requires IsBytes(p.0) && IsBytes(p.1)
  {
    PercentEncode(p.0) + "=" + PercentEncode(p.1)
  }

  function QueryText(order: seq<(string, string)>): string
    requires AllBytes(order)
  {
    if order == [] then ""
    else PairText(order[0]) + (if |order| == 1 then "" else "&" + QueryText(order[1..]))
  }

  /** A map after entries were set one after the other. */
  function SetAll(m: map<string, string>, order: seq<(string, string)>): map<string, string>
    decreases |order|
  {
    if order == [] then m else SetAll(m[order[0].0 := order[0].1], order[1..])
  }

  lemma PairIsRead(p: (string, string))
    requires IsBytes(p.0) && IsBytes(p.1)
    ensures '&' !in PairText(p) && QueryEntry(PairText(p)) == Some(Some(p))
  {
    hide PercentEncode, UrlDecode, Find, Before, After;
    FindSeparator(PercentEncode(p.0), '=', PercentEncode(p.1));
    UrlDecodeEncoded(p.0);
    UrlDecodeEncoded(p.1);
  }

  lemma {:induction false} QueryIsRead(order: seq<(string, string)>, m: map<string, string>)
    requires AllBytes(order)
    ensures ParseQuery(QueryText(order), m) == Some(SetAll(m, order))
    decreases |order|
  {
    hide PairText, QueryEntry, Before, After;
    if order != [] {
      PairIsRead(order[0]);
      PairNotEmpty(order[0]);
      var rest := QueryText(order[1..]);
      if |order| == 1 {
        FindNoSeparator(PairText(order[0]), '&');
        assert QueryText(order) == PairText(order[0]) + "" == PairText(order[0]);
        assert order[1..] == [];
      } else {
        FindSeparator(PairText(order[0]), '&', rest);
        assert QueryText(order) == PairText(order[0]) + ['&'] + rest;
        QueryIsRead(order[1..], m[order[0].0 := order[0].1]);
      }
    }
  }

  lemma PairNotEmpty(p: (string, string))
    requires IsBytes(p.0) && IsBytes(p.1)
    ensures PairText(p) != ""
  {
  }

  // ---------------------------------------------------------------- headers

  /** A header that can be written: its name has no colon, and its value no white space in front. */
  predicate HeaderOk(h: (string, string)) {
    && OneLine(h.0) && ':' !in h.0 && OneLine(h.1)
    && (h.1 != "" ==> h.1[0] != ' ' && h.1[0] != '\t')
  }

  predicate HeadersOk(hs: seq<(string, string)>) {
    forall i :: 0 <= i < |hs| ==> HeaderOk(hs[i])
  }

  function HeaderLine(h: (string, string)): string {
    h.0 + ": " + h.1
  }

  /** The header lines, the last one without its line end. */
  function HeaderText(hs: seq<(string, string)>): string
    requires hs != []
  {
    if |hs| == 1 then HeaderLine(hs[0]) else HeaderLine(hs[0]) + CRLF + HeaderText(hs[1..])
  }

  /** Header names are read in lower case. */
  function Lowered(hs: seq<(string, string)>): (r: seq<(string, string)>)
    ensures |r| == |hs|
  {
    seq(|hs|, i requires 0 <= i < |hs| => (ToLowerCase(hs[i].0), hs[i].1))
  }

  lemma HeaderLineOk(h: (string, string))
    requires HeaderOk(h)
    ensures OneLine(HeaderLine(h)) && HeaderLine(h) != "" && HeaderLine(h)[0] != '\r'
  {
    var line := HeaderLine(h);
    assert forall i :: 0 <= i < |line| ==> line[i] != '\r' && line[i] != '\n';
  }

  /** One header line is read, with or without a carriage return at its end. */
  lemma HeaderIsRead(h: (string, string))
    requires HeaderOk(h)
    ensures HeaderEntry(HeaderLine(h)) == Some((ToLowerCase(h.0), h.1))
    ensures HeaderEntry(HeaderLine(h) + "\r") == Some((ToLowerCase(h.0), h.1))
  {
    HeaderLineOk(h);
    var line := HeaderLine(h);
    assert line[|line| - 1] in line;
    assert (line + "\r")[..|line|] == line;
    assert StripReturn(line) == line && StripReturn(line + "\r") == line;
    assert line == h.0 + [':'] + (" " + h.1);
    FindSeparator(h.0, ':', " " + h.1);
    assert line[..|h.0|] == h.0 && line[|h.0| + 1..] == " " + h.1;
    assert (" " + h.1)[1..] == h.1;
    assert TrimLeft(" " + h.1) == TrimLeft(h.1) == h.1;
  }

  lemma {:induction false} HeadersAreRead(hs: seq<(string, string)>, m: map<string, string>)
    requires hs != [] && HeadersOk(hs)
    ensures ParseHeaders(HeaderText(hs), m) == SetAll(m, Lowered(hs))
    decreases |hs|
  {
    hide HeaderLine, HeaderEntry, Before, After, ToLowerCase, HeaderOk, OneLine;
    var line := HeaderLine(hs[0]);
    HeaderLineOk(hs[0]);
    HeaderIsRead(hs[0]);
    NoLineFeed(line);
    assert Lowered(hs)[0] == (ToLowerCase(hs[0].0), hs[0].1);
    assert Lowered(hs)[1..] == Lowered(hs[1..]);
    if |hs| == 1 {
      FindNoSeparator(line, '\n');
      assert Lowered(hs[1..]) == [];
    } else {
      var rest := HeaderText(hs[1..]);
      assert HeaderText(hs) == (line + "\r") + ['\n'] + rest;
      FindSeparator(line + "\r", '\n', rest);
      HeadersAreRead(hs[1..], m[ToLowerCase(hs[0].0) := hs[0].1]);
    }
  }

  lemma NoLineFeed(line: string)
    requires OneLine(line)
    ensures '\n' !in line && '\n' !in line + "\r"
  {
  }

  lemma {:induction false} FindAfterHeaders(hs: seq<(string, string)>, body: string)
    requires hs != [] && HeadersOk(hs)
    ensures Find(HeaderText(hs) + BLANK_LINE + body, BLANK_LINE) == Some(|HeaderText(hs)|)
    decreases |hs|
  {
    hide HeaderLine, Find, HeaderOk, OneLine;
    var line := HeaderLine(hs[0]);
    HeaderLineOk(hs[0]);
    if |hs| == 1 {
      FindHeadEndHere(line, body);
    } else {
      var rest := HeaderText(hs[1..]);
      FindAfterHeaders(hs[1..], body);
      HeaderTextBegins(hs[1..], BLANK_LINE + body);
      assert rest + BLANK_LINE + body == rest + (BLANK_LINE + body);
      FindHeadEnd(line, rest + BLANK_LINE + body);
      assert HeaderText(hs) + BLANK_LINE + body == line + CRLF + (rest + BLANK_LINE + body);
    }
  }

  lemma HeaderTextBegins(hs: seq<(string, string)>, more: string)
    requires hs != [] && HeadersOk(hs)
    ensures HeaderText(hs) + more != "" && (HeaderText(hs) + more)[0] != '\r'
  {
    HeaderLineOk(hs[0]);
    hide HeaderLine, HeaderOk;
  }

  // ---------------------------------------------------------------- the request

  /** What a client wants to send. A query of `None` is a target without a question mark. */
  datatype Outgoing = Outgoing(verb: HttpMethod, path: string, query: Option<seq<(string, string)>>, version: string,
                               headers: seq<(string, string)>, body: string)

  predicate Sendable(o: Outgoing) {
    && OneLine(o.path) && ' ' !in o.path && '?' !in o.path && OneLine(o.version)
    && (o.query.Some? ==> AllBytes(o.query.value))
    && HeadersOk(o.headers)
  }

  function QueryOf(o: Outgoing): string
    requires Sendable(o)
  {
    if o.query.Some? then QueryText(o.query.value) else ""
  }

  function Target(o: Outgoing): string
    requires Sendable(o)
  {
    o.path + (if o.query.Some? then "?" + QueryOf(o) else "")
  }

  function RequestLine(o: Outgoing): string
    requires Sendable(o)
  {
    MethodName(o.verb) + " " + Target(o) + " " + o.version
  }

  /** The request line, the header lines if any, an empty line, and the body. */
  function Rendered(o: Outgoing): string
    requires Sendable(o)
  {
    RequestLine(o) + (if o.headers == [] then "" else CRLF + HeaderText(o.headers)) + BLANK_LINE + o.body
  }

  /** The headers as they are read: names in lower case, the last value of a repeated name. */
  function HeaderMap(o: Outgoing): map<string, string> {
    SetAll(map[], Lowered(o.headers))
  }

  /** What a request announcing `n` body bytes is read as: with fewer, it stays incomplete and without a body. */
  function Expected(o: Outgoing, n: nat): HttpRequest
    requires Sendable(o)
  {
    HttpRequest(o.verb, o.path, QueryOf(o), o.version, HeaderMap(o), if |o.body| >= n then o.body[..n] else "",
                if o.query.Some? then SetAll(map[], o.query.value) else map[], map[], Rendered(o), |o.body| >= n, n)
  }

  // ---------------------------------------------------------------- reading it

  lemma {:induction false} QueryCharacters(order: seq<(string, string)>)
    requires AllBytes(order)
    ensures forall c :: c in QueryText(order) ==> IsHex(c) || c == '%' || c == '=' || c == '&'
  {
    hide PercentEncode;
    if |order| > 1 {
      QueryCharacters(order[1..]);
    }
  }

  lemma MethodCharacters(m: HttpMethod)
    ensures OneLine(MethodName(m)) && ' ' !in MethodName(m)
  {
  }

  lemma TargetCharacters(o: Outgoing)
    requires Sendable(o)
    ensures ' ' !in Target(o) && OneLine(Target(o))
    ensures '?' !in QueryOf(o)
  {
    hide QueryText, HeadersOk, HeaderOk;
    if o.query.Some? {
      QueryCharacters(o.query.value);
    }
  }

  lemma LineIsOneLine(o: Outgoing)
    requires Sendable(o)
    ensures OneLine(RequestLine(o))
  {
    hide MethodName, Target, QueryOf, HeadersOk;
    MethodCharacters(o.verb);
    TargetCharacters(o);
  }

  /** The target is taken apart at its first question mark. */
  lemma TargetIsRead(o: Outgoing)
    requires Sendable(o)
    ensures o.query.None? ==> Find(Target(o), "?") == None && Target(o) == o.path
    ensures o.query.Some? ==>
              && Find(Target(o), "?") == Some(|o.path|) && Target(o)[..|o.path|] == o.path
              && Target(o)[|o.path| + 1..] == QueryOf(o)
  {
    hide Find, QueryText, HeadersOk, OneLine;
    if o.query.Some? {
      FindSeparator(o.path, '?', QueryOf(o));
      assert Target(o) == o.path + ['?'] + QueryOf(o);
    } else {
      FindNoSeparator(o.path, '?');
      assert Target(o) == o.path;
    }
  }

  /** A search that starts after `a` finds the first separator there. */
  lemma FindFromSeparator(s: string, a: string, b: string, c: char, rest: string)
    requires s == a + (b + ([c] + rest)) && c !in b
    ensures FindFrom(s, [c], |a|) == Some(|a| + |b|)
  {
    var j := |a| + |b|;
    forall k | |a| <= k < j ensures !OccursAt(s, [c], k) {
      assert s[k..k + 1][0] == s[k] == b[k - |a|];
    }
    assert s[j..j + 1] == [c];
    assert OccursAt(s, [c], j);
  }

  lemma PartsAround(s: string, a: string, b: string, c: char, rest: string)
    requires s == a + (b + ([c] + rest))
    ensures |s| == |a| + |b| + 1 + |rest|
    ensures s[..|a|] == a && s[|a|..|a| + |b|] == b && s[|a| + |b| + 1..] == rest
  {
  }

  /** The first space of the request line is found. */
  lemma FirstSpace(line: string, verb: string, more: string)
    requires line == verb + " " + more && ' ' !in verb
    ensures Find(line, " ") == Some(|verb|) && |verb| < |line| && line[..|verb|] == verb
  {
    assert line == verb + [' '] + more;
    FindSeparator(verb, ' ', more);
  }

  /** And the second one. */
  lemma SecondSpace(line: string, verb: string, target: string, version: string)
    requires line == verb + " " + (target + " " + version) && ' ' !in target
    ensures var i, j := |verb|, |verb| + 1 + |target|;
            |line| >= j + 1 && FindFrom(line, " ", i + 1) == Some(j) && line[i + 1..j] == target && line[j + 1..] == version
  {
    hide FindFrom;
    var a := verb + " ";
    assert target + " " + version == target + ([' '] + version);
    FindFromSeparator(line, a, target, ' ', version);
    PartsAround(line, a, target, ' ', version);
  }

  lemma LineIsRead(o: Outgoing, r: HttpRequest)
    requires Sendable(o) && r.query == map[] && r.queryString == ""
    ensures ParseRequestLine(RequestLine(o), r) ==
            Good(r.(verb := o.verb, version := o.version, path := o.path, queryString := QueryOf(o),
                    query := if o.query.Some? then SetAll(map[], o.query.value) else map[]))
  {
    hide Find, FindFrom, MethodName, MethodOf, QueryText, ParseQuery, HeadersOk, OneLine, Target;
    MethodCharacters(o.verb);
    TargetCharacters(o);
    var more := Target(o) + " " + o.version;
    assert RequestLine(o) == MethodName(o.verb) + " " + more;
    FirstSpace(RequestLine(o), MethodName(o.verb), more);
    SecondSpace(RequestLine(o), MethodName(o.verb), Target(o), o.version);
    TargetIsRead(o);
    MethodNameInverse(o.verb);
    if o.query.Some? {
      QueryIsRead(o.query.value, map[]);
    }
  }

  lemma ReadUnsignedDecimal(n: nat)
    requires n < 0x1_0000_0000
    ensures ReadUnsigned(Decimal(n)) == Some(n)
  {
    var s := Decimal(n);
    DecimalInverse(n);
    assert IsDigit(s[0]);
    DigitRunOf(s, "");
    assert s + "" == s && s[..|s|] == s;
  }

  /** Where the parser cuts a written request with headers. */
  lemma PartsAreFound(o: Outgoing)
    requires Sendable(o) && o.headers != []
    ensures var raw := Rendered(o); var line := RequestLine(o); var headers := HeaderText(o.headers);
            var n := |line| + 2 + |headers|;
            && Find(raw, BLANK_LINE) == Some(n) && raw[n + 4..] == o.body
            && raw[..n] == line + CRLF + headers && Find(raw[..n], CRLF) == Some(|line|)
            && raw[..n][..|line|] == line && raw[..n][|line| + 2..] == headers
  {
    hide Find, RequestLine, HeaderText, HeadersOk, OneLine;
    var line, headers := RequestLine(o), HeaderText(o.headers);
    LineIsOneLine(o);
    FindAfterHeaders(o.headers, o.body);
    HeaderTextBegins(o.headers, BLANK_LINE + o.body);
    var rest := headers + BLANK_LINE + o.body;
    assert rest == headers + (BLANK_LINE + o.body);
    FindHeadEnd(line, rest);
    assert Rendered(o) == line + CRLF + rest;
    FindLineEnd(line, headers);
  }

  /** A request without any header is refused, because its head then has no line end left in it. */
  lemma NoHeadersIsRefused(line: string, body: string, r: HttpRequest)
    requires OneLine(line)
    ensures ParseInto(line + BLANK_LINE + body, r).Bad?
  {
    FindHeadEndHere(line, body);
    var raw := line + BLANK_LINE + body;
    assert raw[..|line|] == line;
    forall i ensures !OccursAt(line, CRLF, i) {
      if 0 <= i <= |line| - 2 {
        assert line[i..i + 2][0] == line[i];
      }
    }
    hide ParseRequestLine;
  }

  lemma WithHeaders(o: Outgoing)
    requires Sendable(o) && o.headers != []
    ensures match ContentLength(HeaderMap(o))
            case None => ParseInto(Rendered(o), Blank) == Raised
            case Some(n) => n >= 0 && ParseInto(Rendered(o), Blank) == Good(Expected(o, n))
  {
    hide Find, ParseRequestLine, ParseHeaders, Rendered, RequestLine, HeaderText, QueryOf, HeadersOk, OneLine, SetAll, ReadUnsigned;
    var raw := Rendered(o);
    PartsAreFound(o);
    LineIsRead(o, Fresh(raw, Blank));
    HeadersAreRead(o.headers, map[]);
    assert HeaderMap(o) == ParseHeaders(HeaderText(o.headers), map[]);
    assert ContentLength(HeaderMap(o)).Some? ==> ContentLength(HeaderMap(o)).value >= 0;
    assert o.body[..0] == "";
  }

  /**
   Exactly which written requests are understood, and as what: those with at least one header whose
   content length, if given, is a number. Then method, path, percent-encoded query entries, version
   and headers all arrive, and the body as far as it was announced: none without an announcement.
   */
  lemma RequestIsUnderstood(o: Outgoing)
    requires Sendable(o)
    ensures ParseInto(Rendered(o), Blank).Good? <==> o.headers != [] && ContentLength(HeaderMap(o)).Some?
    ensures ParseInto(Rendered(o), Blank).Good? ==>
              ContentLength(HeaderMap(o)).value >= 0
              && ParseInto(Rendered(o), Blank) == Good(Expected(o, ContentLength(HeaderMap(o)).value))
  {
    hide ParseInto, ContentLength, HeaderMap, Expected, RequestLine, HeaderText, HeadersOk, OneLine;
    if o.headers == [] {
      LineIsOneLine(o);
      NoHeadersIsRefused(RequestLine(o), o.body, Blank);
      assert Rendered(o) == RequestLine(o) + "" + BLANK_LINE + o.body;
      assert RequestLine(o) + "" == RequestLine(o);
    } else {
      WithHeaders(o);
    }
  }

  /** A request that announces the length of its body arrives completely; so does one without a body that announces none. */
  lemma BodyArrives(o: Outgoing)
    requires Sendable(o) && o.headers != [] && |o.body| < 0x1_0000_0000
    requires if "content-length" in HeaderMap(o) then HeaderMap(o)["content-length"] == Decimal(|o.body|) else o.body == ""
    ensures ParseInto(Rendered(o), Blank).Good?
    ensures var r := ParseInto(Rendered(o), Blank).request; r.complete && r.body == o.body
  {
    hide *;
    LengthOf(HeaderMap(o), o.body);
    RequestIsUnderstood(o);
    ExpectedBody(o);
  }

  lemma LengthGiven(headers: map<string, string>)
    ensures "content-length" !in headers ==> ContentLength(headers) == Some(0)
    ensures "content-length" in headers && ReadUnsigned(headers["content-length"]).Some? ==>
              ContentLength(headers) == Some(ReadUnsigned(headers["content-length"]).value % 0x1_0000_0000)
  {
    hide ReadUnsigned;
  }

  lemma LengthOf(headers: map<string, string>, body: string)
    requires |body| < 0x1_0000_0000
    requires if "content-length" in headers then headers["content-length"] == Decimal(|body|) else body == ""
    ensures ContentLength(headers) == Some(|body|)
  {
    hide *;
    ReadUnsignedDecimal(|body|);
    LengthGiven(headers);
  }

  lemma ExpectedBody(o: Outgoing)
    requires Sendable(o)
    ensures Expected(o, |o.body|).complete && Expected(o, |o.body|).body == o.body
  {
    hide Sendable, QueryOf, Rendered;
    assert o.body[..|o.body|] == o.body;
  }

  /** Cut before its end, a text does not hold the blank line any more. */
  lemma CutBeforeBlankLine(raw: string, n: nat)
    requires Find(raw, BLANK_LINE).Some? && n < Find(raw, BLANK_LINE).value + 4 && n <= |raw|
    ensures Find(raw[..n], BLANK_LINE) == None
  {
    forall j ensures !OccursAt(raw[..n], BLANK_LINE, j) {
      if 0 <= j <= n - 4 {
        assert raw[..n][j..j + 4] == raw[j..j + 4];
        assert !OccursAt(raw, BLANK_LINE, j);
      }
    }
  }

  /** A request that is understood as a whole is refused when the first read ends inside its head. */
  lemma CutHeadIsRefused(o: Outgoing, n: nat)
    requires Sendable(o) && o.headers != [] && ContentLength(HeaderMap(o)).Some?
    requires n < |RequestLine(o)| + 2 + |HeaderText(o.headers)| + 4
    ensures n <= |Rendered(o)| && ParseInto(Rendered(o), Blank).Good? && ParseInto(Rendered(o)[..n], Blank).Bad?
  {
    RequestIsUnderstood(o);
    PartsAreFound(o);
    hide ContentLength, HeaderMap, Rendered, RequestLine, HeaderText, HeadersOk, OneLine, ParseHead, Find;
    CutBeforeBlankLine(Rendered(o), n);
  }
}
