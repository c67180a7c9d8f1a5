/**
 What the HTTP parser makes of requests as clients really write them: query strings that mix plain
 characters, plus signs and escapes, words and header names in either case, blanks before header
 values, and lengths with signs or trailing text.
 */
module HttpLenience {
  import opened Text
  import opened Endpoints
  import opened Http
  import opened HttpParser
  import opened HttpWriting

  // ---------------------------------------------------------------- percent-encoded text

  /** One character of encoded text: itself, a plus sign, or two hexadecimal digits in either case. */
  datatype UrlPart = Plain(c: char) | Plus | Escaped(high: int, low: int, upperHigh: bool, upperLow: bool)

  predicate UrlPartOk(p: UrlPart) {
    match p
    case Plain(c) => c != '%' && c != '+'
    case Plus => true
    case Escaped(high, low, _, _) => 0 <= high < 16 && 0 <= low < 16
  }

  function UrlPartText(p: UrlPart): string
    requires UrlPartOk(p)
  {
    match p
    case Plain(c) => [c]
    case Plus => "+"
    case Escaped(high, low, upperHigh, upperLow) => ['%', HexDigit(high, upperHigh), HexDigit(low, upperLow)]
  }

  function UrlPartValue(p: UrlPart): char
    requires UrlPartOk(p)
  {
    match p
    case Plain(c) => c
    case Plus => ' '
    case Escaped(high, low, _, _) => (high * 16 + low) as char
  }

  predicate UrlOk(ps: seq<UrlPart>) {
    forall i :: 0 <= i < |ps| ==> UrlPartOk(ps[i])
  }

  function UrlText(ps: seq<UrlPart>): string
    requires UrlOk(ps)
  {
    if ps == [] then "" else UrlPartText(ps[0]) + UrlText(ps[1..])
  }

  function UrlValue(ps: seq<UrlPart>): (s: string)
    requires UrlOk(ps)
    ensures |s| == |ps|
  {
    seq(|ps|, i requires 0 <= i < |ps| => UrlPartValue(ps[i]))
  }

  lemma TwoDigits(high: int, low: int, upperHigh: bool, upperLow: bool)
    requires 0 <= high < 16 && 0 <= low < 16
    ensures ReadHex([HexDigit(high, upperHigh), HexDigit(low, upperLow)]) == Some(high * 16 + low)
  {
    var a, b := HexDigit(high, upperHigh), HexDigit(low, upperLow);
    HexDigitValue(high, upperHigh);
    HexDigitValue(low, upperLow);
    hide HexDigit, IsHex, HexValue, ReadHex;
    assert AllHex([a, b]);
    assert "" + ("" + ("" + ([a, b] + ""))) == [a, b];
    HexNumbers("", "", "", [a, b], "");
    assert [a, b][1..] == [b] && [b][1..] == "";
    assert HexRun([a, b], 0) == HexRun([b], HexValue(a));
    assert HexRun([b], HexValue(a)) == HexRun("", HexValue(a) * 16 + HexValue(b));
  }

  lemma EscapeTurn(s: string, i: nat, digits: string, n: int, decoded: string)
    requires i + 2 < |s| && s[i] == '%' && s[i + 1..i + 3] == digits && ReadHex(digits) == Some(n) && 0 <= n < 256
    ensures UrlDecodeFrom(s, i, decoded) == UrlDecodeFrom(s, i + 3, decoded + [n as char])
  {
    hide ReadHex;
  }

  lemma PlusTurn(s: string, i: nat, decoded: string)
    requires i < |s| && s[i] == '+'
    ensures UrlDecodeFrom(s, i, decoded) == UrlDecodeFrom(s, i + 1, decoded + [' '])
  {
  }

  lemma RawTurn(s: string, i: nat, decoded: string)
    requires i < |s| && s[i] != '+' && (s[i] == '%' ==> i + 2 >= |s|)
    ensures UrlDecodeFrom(s, i, decoded) == UrlDecodeFrom(s, i + 1, decoded + [s[i]])
  {
  }

  /** One turn of the decoding loop. */
  lemma DecodeTurn(before: string, p: UrlPart, after: string, decoded: string)
    requires UrlPartOk(p)
    ensures UrlDecodeFrom(before + (UrlPartText(p) + after), |before|, decoded)
            == UrlDecodeFrom(before + UrlPartText(p) + after, |before + UrlPartText(p)|, decoded + [UrlPartValue(p)])
  {
    hide UrlDecodeFrom, HexDigit, ReadHex;
    var t, i := before + (UrlPartText(p) + after), |before|;
    assert t == before + UrlPartText(p) + after;
    assert t[i] == UrlPartText(p)[0];
    match p
    case Plain(c) => RawTurn(t, i, decoded);
    case Plus => PlusTurn(t, i, decoded);
    case Escaped(high, low, upperHigh, upperLow) =>
      TwoDigits(high, low, upperHigh, upperLow);
      var digits := [HexDigit(high, upperHigh), HexDigit(low, upperLow)];
      assert t[i + 1..i + 3] == digits;
      EscapeTurn(t, i, digits, high * 16 + low, decoded);
  }

  /** What is left raw at the end: a percent sign with fewer than two characters after it. */
  predicate IsCutOff(s: string) {
    s == "" || s == "%" || (|s| == 2 && s[0] == '%' && s[1] != '+' && s[1] != '%')
  }

  lemma NothingLeft(s: string, decoded: string)
    ensures UrlDecodeFrom(s, |s|, decoded) == Some(decoded)
  {
  }

  lemma CutOffStays(before: string, end: string, decoded: string)
    requires IsCutOff(end)
    ensures UrlDecodeFrom(before + end, |before|, decoded) == Some(decoded + end)
  {
    hide UrlDecodeFrom;
    var s, i := before + end, |before|;
    NothingLeft(s, decoded + end);
    if end == "" {
      assert decoded + end == decoded;
    } else {
      RawTurn(s, i, decoded);
      if |end| == 2 {
        RawTurn(s, i + 1, decoded + ['%']);
        assert decoded + ['%'] + [end[1]] == decoded + end;
      } else {
        assert decoded + ['%'] == decoded + end;
      }
    }
  }

  lemma {:induction false} UrlDecodeParts(before: string, ps: seq<UrlPart>, end: string, decoded: string)
    requires UrlOk(ps) && IsCutOff(end)
    ensures UrlDecodeFrom(before + (UrlText(ps) + end), |before|, decoded) == Some(decoded + UrlValue(ps) + end)
    decreases |ps|
  {
    hide UrlDecodeFrom, UrlPartText, UrlPartValue, UrlPartOk, IsCutOff;
    if ps == [] {
      assert UrlText(ps) + end == end && decoded + UrlValue(ps) == decoded;
      CutOffStays(before, end, decoded);
    } else {
      var first, rest := UrlPartText(ps[0]), UrlText(ps[1..]) + end;
      assert UrlText(ps) + end == first + rest;
      DecodeTurn(before, ps[0], rest, decoded);
      UrlDecodeParts(before + first, ps[1..], end, decoded + [UrlPartValue(ps[0])]);
      assert decoded + [UrlPartValue(ps[0])] + UrlValue(ps[1..]) == decoded + UrlValue(ps);
    }
  }

  /** Encoded text is decoded character by character, whichever way each was written; a cut-off escape stays as it is. */
  lemma UrlDecodeIs(ps: seq<UrlPart>, end: string)
    requires UrlOk(ps) && IsCutOff(end)
    ensures UrlDecode(UrlText(ps) + end) == Some(UrlValue(ps) + end)
  {
    UrlDecodeParts("", ps, end, "");
    assert "" + (UrlText(ps) + end) == UrlText(ps) + end && "" + UrlValue(ps) == UrlValue(ps);
  }

  /** An escape that is no number makes the decoder throw, whatever follows. */
  lemma BadEscapeRaises(ps: seq<UrlPart>, a: char, b: char, rest: string)
    requires UrlOk(ps) && !IsHex(a) && a != '+' && a != '-' && !IsCGap([a])
    ensures UrlDecode(UrlText(ps) + (['%', a, b] + rest)) == None
  {
    BadEscapeFrom("", ps, a, b, rest, "");
    assert "" + (UrlText(ps) + (['%', a, b] + rest)) == UrlText(ps) + (['%', a, b] + rest);
  }

  lemma {:induction false} BadEscapeFrom(before: string, ps: seq<UrlPart>, a: char, b: char, rest: string, decoded: string)
    requires UrlOk(ps) && !IsHex(a) && a != '+' && a != '-' && !IsCGap([a])
    ensures UrlDecodeFrom(before + (UrlText(ps) + (['%', a, b] + rest)), |before|, decoded) == None
    decreases |ps|
  {
    var bad := ['%', a, b] + rest;
    hide UrlPartText, UrlPartValue, UrlPartOk, ReadHex;
    if ps == [] {
      var s, i := before + bad, |before|;
      assert UrlText(ps) + bad == bad;
      assert s[i] == '%' && s[i + 1..i + 3] == [a, b];
      assert "" + ("" + [a, b]) == [a, b];
      NoHexNumber("", "", [a, b]);
    } else {
      hide UrlDecodeFrom;
      var first, tail := UrlPartText(ps[0]), UrlText(ps[1..]) + bad;
      assert UrlText(ps) + bad == first + tail;
      DecodeTurn(before, ps[0], tail, decoded);
      BadEscapeFrom(before + first, ps[1..], a, b, rest, decoded + [UrlPartValue(ps[0])]);
    }
  }

  // ---------------------------------------------------------------- queries

  /** What may stand between ampersands: nothing, a key alone, or a key and a value. */
  datatype QueryPart = Nothing | Flag(key: seq<UrlPart>) | Pair(key: seq<UrlPart>, value: seq<UrlPart>)

  predicate QueryPartOk(q: QueryPart) {
    match q
    case Nothing => true
    case Flag(key) => UrlOk(key) && key != [] && '=' !in UrlText(key) && '&' !in UrlText(key)
    case Pair(key, value) =>
      UrlOk(key) && UrlOk(value) && '=' !in UrlText(key) && '&' !in UrlText(key) && '&' !in UrlText(value)
  }

  function QueryPartText(q: QueryPart): string
    requires QueryPartOk(q)
  {
    match q
    case Nothing => ""
    case Flag(key) => UrlText(key)
    case Pair(key, value) => UrlText(key) + "=" + UrlText(value)
  }

  predicate QueryOk(qs: seq<QueryPart>) {
    forall i :: 0 <= i < |qs| ==> QueryPartOk(qs[i])
  }

  function LooseQuery(qs: seq<QueryPart>): string
    requires QueryOk(qs)
  {
    if qs == [] then ""
    else QueryPartText(qs[0]) + (if |qs| == 1 then "" else "&" + LooseQuery(qs[1..]))
  }

  /** What a part sets; a key alone is given the empty text. */
  function AfterPart(q: QueryPart, m: map<string, string>): map<string, string>
    requires QueryPartOk(q)
  {
    match q
    case Nothing => m
    case Flag(key) => m[UrlValue(key) := ""]
    case Pair(key, value) => m[UrlValue(key) := UrlValue(value)]
  }

  /** The entries a query sets, one after the other. */
  function QueryMeaning(qs: seq<QueryPart>, m: map<string, string>): map<string, string>
    requires QueryOk(qs)
    decreases |qs|
  {
    if qs == [] then m else QueryMeaning(qs[1..], AfterPart(qs[0], m))
  }

  lemma UrlDecodeWhole(ps: seq<UrlPart>)
    requires UrlOk(ps)
    ensures UrlDecode(UrlText(ps)) == Some(UrlValue(ps))
  {
    UrlDecodeIs(ps, "");
    assert UrlText(ps) + "" == UrlText(ps) && UrlValue(ps) + "" == UrlValue(ps);
  }

  lemma NothingDecoded()
    ensures UrlDecode("") == Some("")
  {
  }

  lemma {:induction false} UrlTextNotEmpty(ps: seq<UrlPart>)
    requires UrlOk(ps) && ps != []
    ensures UrlText(ps) != ""
  {
  }

  lemma EntryOfPart(q: QueryPart)
    requires QueryPartOk(q)
    ensures '&' !in QueryPartText(q)
    ensures QueryEntry(QueryPartText(q)) ==
            match q
            case Nothing => Some(None)
            case Flag(key) => Some(Some((UrlValue(key), "")))
            case Pair(key, value) => Some(Some((UrlValue(key), UrlValue(value))))
    ensures QueryPartText(q) == "" ==> q == Nothing
  {
    hide UrlText, UrlValue, UrlDecode, Find, Before, After, UrlOk;
    match q
    case Nothing =>
    case Flag(key) =>
      UrlTextNotEmpty(key);
      FindNoSeparator(UrlText(key), '=');
      UrlDecodeWhole(key);
      NothingDecoded();
    case Pair(key, value) =>
      FindSeparator(UrlText(key), '=', UrlText(value));
      UrlDecodeWhole(key);
      UrlDecodeWhole(value);
  }

  lemma PartIsSet(q: QueryPart, m: map<string, string>)
    requires QueryPartOk(q)
    ensures '&' !in QueryPartText(q)
    ensures QueryEntry(QueryPartText(q)).Some? && WithEntry(m, QueryEntry(QueryPartText(q)).value) == AfterPart(q, m)
    ensures QueryPartText(q) == "" ==> AfterPart(q, m) == m
  {
    hide QueryPartText, QueryEntry, UrlValue, QueryPartOk;
    EntryOfPart(q);
  }

  /** One turn of the loop over the pairs. */
  lemma QueryTurn(s: string, pair: string, rest: string, m: map<string, string>)
    requires s != "" && Before(s, "&") == pair && After(s, "&") == rest && QueryEntry(pair).Some?
    ensures ParseQuery(s, m) == ParseQuery(rest, WithEntry(m, QueryEntry(pair).value))
  {
    hide Before, After, QueryEntry, WithEntry;
  }

  lemma QueryDone(m: map<string, string>)
    ensures ParseQuery("", m) == Some(m)
  {
  }

  /** Every query written with these parts is read as what they mean, over whatever the map held. */
  lemma {:induction false} LooseQueryIsRead(qs: seq<QueryPart>, m: map<string, string>)
    requires QueryOk(qs)
    ensures ParseQuery(LooseQuery(qs), m) == Some(QueryMeaning(qs, m))
    decreases |qs|
  {
    hide ParseQuery, QueryPartText, QueryPartOk, QueryEntry, Before, After, WithEntry, AfterPart;
    if qs == [] {
      QueryDone(m);
    } else {
      var first := QueryPartText(qs[0]);
      PartIsSet(qs[0], m);
      var m' := AfterPart(qs[0], m);
      if |qs| == 1 {
        FindNoSeparator(first, '&');
        assert LooseQuery(qs) == first + "" == first;
        assert qs[1..] == [];
        QueryDone(m');
        if first != "" {
          QueryTurn(first, first, "", m);
        }
      } else {
        var rest := LooseQuery(qs[1..]);
        FindSeparator(first, '&', rest);
        assert LooseQuery(qs) == first + ['&'] + rest;
        QueryTurn(LooseQuery(qs), first, rest, m);
        LooseQueryIsRead(qs[1..], m');
      }
    }
  }

  // ---------------------------------------------------------------- the request line

  /** The seven methods, each as one word in capitals or one in small letters. */
  lemma MethodWords()
    ensures MethodOf("GET") == MethodOf("get") == Get && MethodOf("POST") == MethodOf("post") == Post
    ensures MethodOf("PUT") == MethodOf("put") == Put && MethodOf("DELETE") == MethodOf("delete") == Delete
    ensures MethodOf("PATCH") == MethodOf("patch") == Patch && MethodOf("HEAD") == MethodOf("head") == Head
    ensures MethodOf("OPTIONS") == MethodOf("options") == Options
  {
  }

  /** Every other word is an unknown method, one in mixed letters too. */
  lemma OtherWords(word: string)
    requires word != "GET" && word != "get" && word != "POST" && word != "post" && word != "PUT" && word != "put"
    requires word != "DELETE" && word != "delete" && word != "PATCH" && word != "patch" && word != "HEAD" && word != "head"
    requires word != "OPTIONS" && word != "options"
    ensures MethodOf(word) == Unknown
  {
  }

  /** A request line of a word, a path, a query in any of these forms and a version. */
  lemma LooseLineIsRead(word: string, path: string, qs: seq<QueryPart>, version: string, r: HttpRequest)
    requires ' ' !in word && ' ' !in path && '?' !in path && QueryOk(qs) && ' ' !in LooseQuery(qs)
    ensures ParseRequestLine(word + " " + (path + "?" + LooseQuery(qs) + " " + version), r) ==
            Good(r.(verb := MethodOf(word), version := version, path := path, queryString := LooseQuery(qs),
                    query := QueryMeaning(qs, r.query)))
  {
    hide Find, FindFrom, MethodOf, ParseQuery, LooseQuery, QueryMeaning, QueryOk;
    var query := LooseQuery(qs);
    var target := path + "?" + query;
    var line := word + " " + (target + " " + version);
    FirstSpace(line, word, target + " " + version);
    SecondSpace(line, word, target, version);
    assert target == path + ['?'] + query;
    FindSeparator(path, '?', query);
    assert target[..|path|] == path && target[|path| + 1..] == query;
    LooseQueryIsRead(qs, r.query);
  }

  /** A line of fewer than three words is refused; a first word before a space is taken as the method all the same. */
  lemma ShortLineIsRefused(word: string, rest: string, r: HttpRequest)
    requires ' ' !in word && ' ' !in rest
    ensures ParseRequestLine(word, r) == Bad(r)
    ensures ParseRequestLine(word + " " + rest, r) == Bad(r.(verb := MethodOf(word)))
  {
    hide Find, FindFrom, MethodOf, ParseQuery;
    FindNoSeparator(word, ' ');
    var line := word + " " + rest;
    FirstSpace(line, word, rest);
    NoLaterSpace(line, |word| + 1);
  }

  lemma NoLaterSpace(s: string, i: nat)
    requires forall j :: i <= j < |s| ==> s[j] != ' '
    ensures FindFrom(s, " ", i) == None
  {
    forall j | i <= j ensures !OccursAt(s, " ", j) {
      if j < |s| {
        assert s[j..j + 1][0] == s[j];
      }
    }
  }

  /** Without the end of a head the parse fails, and what it changes of the request it parses into is only this. */
  lemma NoHeadIsRefused(raw: string, r: HttpRequest)
    requires forall i :: !OccursAt(raw, "\r\n\r\n", i)
    ensures ParseInto(raw, r) == Bad(r.(raw := raw, complete := false, contentLength := 0, verb := Unknown))
  {
    hide ParseHead, OccursAt;
  }

  // ---------------------------------------------------------------- headers

  /** Capitals become small letters, */
  lemma LowerIs(i: int)
    requires 0 <= i < 26
    ensures Lower("ABCDEFGHIJKLMNOPQRSTUVWXYZ"[i]) == "abcdefghijklmnopqrstuvwxyz"[i]
  {
  }

  /** and nothing else changes. */
  lemma LowerKeeps(c: char)
    requires !('A' <= c <= 'Z')
    ensures Lower(c) == c
  {
  }

  /** A line with a colon: the name in small letters, and the value without the blanks and tabs before it. */
  lemma LooseHeaderIsRead(name: string, blanks: string, value: string, end: string)
    requires ':' !in name && (end == "" || end == "\r")
    requires forall i :: 0 <= i < |blanks| ==> blanks[i] == ' ' || blanks[i] == '\t'
    requires value != "" ==> value[0] != ' ' && value[0] != '\t'
    requires var text := name + [':'] + (blanks + value); text[|text| - 1] != '\r'
    ensures HeaderEntry(name + [':'] + (blanks + value) + end) == Some((ToLowerCase(name), value))
  {
    hide ToLowerCase, TrimLeft;
    var text := name + [':'] + (blanks + value);
    assert (text + "\r")[..|text|] == text && text + "" == text;
    assert StripReturn(text + end) == text;
    FindSeparator(name, ':', blanks + value);
    assert text[..|name|] == name && text[|name| + 1..] == blanks + value;
    BlanksTrimmed(blanks, value);
  }

  lemma {:induction false} BlanksTrimmed(blanks: string, value: string)
    requires forall i :: 0 <= i < |blanks| ==> blanks[i] == ' ' || blanks[i] == '\t'
    requires value != "" ==> value[0] != ' ' && value[0] != '\t'
    ensures TrimLeft(blanks + value) == value
  {
    if blanks == "" {
      assert blanks + value == value;
    } else {
      assert (blanks + value)[1..] == blanks[1..] + value;
      BlanksTrimmed(blanks[1..], value);
    }
  }

  /** A line without a colon sets nothing. */
  lemma NoColonNoHeader(line: string)
    requires ':' !in line
    ensures HeaderEntry(line) == None
  {
    hide Find;
    var text := StripReturn(line);
    assert ':' !in text;
    FindNoSeparator(text, ':');
  }

  /**
   A content length is read as `stoul` reads it: white space and a sign in front, digits up to 64 bits,
   whatever follows them ignored; kept modulo 2^32. Without a digit, or beyond 64 bits, parsing throws.
   */
  lemma ContentLengthIs(headers: map<string, string>, gap: string, sign: string, digits: string, junk: string)
    requires IsCGap(gap) && (sign == "" || sign == "+" || sign == "-") && AllDigits(digits)
    requires junk != "" ==> !('0' <= junk[0] <= '9')
    requires digits == "" && sign == "" && junk != "" ==> junk[0] != '+' && junk[0] != '-' && !IsCGap([junk[0]])
    requires "content-length" in headers && headers["content-length"] == gap + (sign + (digits + junk))
    ensures ContentLength(headers) ==
            if digits == "" || DecimalValue(digits) >= 18446744073709551616 then None
            else Some((if sign == "-" then 0 - DecimalValue(digits) else DecimalValue(digits)) % 4294967296)
  {
    hide DecimalValue, SkipCSpace;
    var u := digits + junk;
    var t := sign + u;
    LengthHead(sign, digits, junk);
    CGapSkipped(gap, t);
    DigitRunOf(digits, junk);
    assert u[..|digits|] == digits;
    assert (if t != "" && (t[0] == '-' || t[0] == '+') then t[1..] else t) == u;
    LengthGiven(headers);
  }

  lemma LengthHead(sign: string, digits: string, junk: string)
    requires (sign == "" || sign == "+" || sign == "-") && AllDigits(digits)
    requires junk != "" ==> !('0' <= junk[0] <= '9')
    requires digits == "" && sign == "" && junk != "" ==> junk[0] != '+' && junk[0] != '-' && !IsCGap([junk[0]])
    ensures var t := sign + (digits + junk);
            && (t != "" ==> !IsCGap([t[0]]))
            && (t != "" && (t[0] == '-' || t[0] == '+') <==> sign != "")
            && (t != "" && sign != "" ==> t[0] == sign[0] && t[1..] == digits + junk)
            && (sign == "" ==> t == digits + junk)
  {
    var t := sign + (digits + junk);
    if t != "" {
      assert t[0] == if sign != "" then sign[0] else if digits != "" then digits[0] else junk[0];
      assert [t[0]][0] == t[0];
    }
  }

  /** Without the header there is no body. */
  lemma NoContentLength(headers: map<string, string>)
    requires "content-length" !in headers
    ensures ContentLength(headers) == Some(0)
  {
  }
}
