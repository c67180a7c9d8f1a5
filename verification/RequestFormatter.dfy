/**
 The request as it is forwarded to a backend: a JSON text written by hand, with an escaper of its
 own, and what the gateway's JSON parser makes of it.
 */
module RequestFormatter {
  import opened Text
  import opened Json
  import opened JsonReader
  import opened JsonSyntax
  import opened JsonRoundTrip
  import opened JsonWriting
  import opened JsonParsing
  import opened Endpoints
  import opened Http
  import opened Frames

  /** The order in which an unordered map happens to be iterated: every entry once. */
  ghost predicate Enumerates(order: seq<(string, string)>, m: map<string, string>) {
    && |order| == |m|
    && (forall i :: 0 <= i < |order| ==> order[i].0 in m && m[order[i].0] == order[i].1)
    && (forall i, j :: 0 <= i < j < |order| ==> order[i].0 != order[j].0)
  }

  /** The iteration orders of the three maps of a request. */
  datatype Orders = Orders(path: seq<(string, string)>, query: seq<(string, string)>, headers: seq<(string, string)>)

  predicate IsForwarded(header: string) {
    header in {"content-type", "accept", "user-agent", "x-request-id", "x-forwarded-for"}
  }

  // ---------------------------------------------------------------- the second escaper

  function EscapeLoose(c: char): string {
    if c == '"' then "\\\""
    else if c == '\\' then "\\\\"
    else if c == '\n' then "\\n"
    else if c == '\r' then "\\r"
    else if c == '\t' then "\\t"
    else [c]
  }

  /** `EscapeJsonString`: other control characters are left as they are. */
  function EscapeJson(s: string): string {
    if s == "" then "" else EscapeLoose(s[0]) + EscapeJson(s[1..])
  }

  function LoosePiece(c: char): Piece {
    if c == '"' || c == '\\' then Short(c)
    else if c == '\n' then Short('n')
    else if c == '\r' then Short('r')
    else if c == '\t' then Short('t')
    else Raw(c)
  }

  function LoosePieces(s: string): (ps: seq<Piece>) {
    if s == "" then [] else [LoosePiece(s[0])] + LoosePieces(s[1..])
  }

  lemma LoosePieceCorrect(c: char)
    ensures PieceOk(LoosePiece(c)) && PieceText(LoosePiece(c)) == EscapeLoose(c) && PieceValue(LoosePiece(c)) == [c]
  {
  }

  /** The second escaper is undone by the parser as well, for every byte string. */
  lemma {:induction false} LoosePiecesCorrect(s: string, rest: string)
    ensures PiecesOk(LoosePieces(s)) && Spelled(LoosePieces(s)) == s
    ensures EmitPieces(LoosePieces(s), rest) == EscapeJson(s) + rest
  {
    hide PieceOk, PieceText, PieceValue, LoosePiece, EscapeLoose;
    if s != "" {
      LoosePieceCorrect(s[0]);
      LoosePiecesCorrect(s[1..], rest);
      var ps := LoosePieces(s);
      assert ps[0] == LoosePiece(s[0]) && ps[1..] == LoosePieces(s[1..]);
      assert EmitPieces(ps, rest) == EscapeLoose(s[0]) + (EscapeJson(s[1..]) + rest);
      assert Spelled(ps) == [s[0]] + s[1..];
    }
  }

  lemma Regroup(a: string, b: string, c: string, d: string)
    ensures a + b + c + d == a + (b + (c + d))
  {
  }

  lemma EscapedReadsBack(s: string, rest: string)
    ensures ReadString(['"'] + EscapeJson(s) + ['"'] + rest) == Ok(s, rest)
  {
    LoosePiecesCorrect(s, ['"'] + rest);
    ReadSpelledString(LoosePieces(s), rest);
    Regroup(['"'], EscapeJson(s), ['"'], rest);
  }

  /**
   Which control characters the payload's strings keep raw, although JSON forbids them: all but line feed,
   carriage return and tab.
   */
  lemma {:induction false} ControlsLeftRaw(s: string, c: char)
    requires c < ' '
    ensures c in EscapeJson(s) <==> c in s && c != '\n' && c != '\r' && c != '\t'
  {
    if s != "" {
      ControlsLeftRaw(s[1..], c);
      assert c in EscapeLoose(s[0]) <==> c == s[0] && c != '\n' && c != '\r' && c != '\t' by {
        RawIsItself(s[0], c);
      }
      assert s == [s[0]] + s[1..];
      hide EscapeLoose;
    }
  }

  lemma RawIsItself(d: char, c: char)
    requires c < ' '
    ensures c in EscapeLoose(d) <==> c == d && c != '\n' && c != '\r' && c != '\t'
  {
  }

  // ---------------------------------------------------------------- the payload as syntax

  function StringNode(s: string): Node {
    Quoted(LoosePieces(s))
  }

  function EntryFor(key: string, node: Node): Entry {
    Entry("", LoosePieces(key), "", "", node, "")
  }

  function PairEntries(order: seq<(string, string)>): (es: seq<Entry>)
    ensures |es| == |order|
    ensures forall i :: 0 <= i < |order| ==> es[i] == EntryFor(order[i].0, StringNode(order[i].1))
  {
    seq(|order|, i requires 0 <= i < |order| => EntryFor(order[i].0, StringNode(order[i].1)))
  }

  function Forwarded(order: seq<(string, string)>): (r: seq<(string, string)>) {
    if order == [] then []
    else
      var n := |order| - 1;
      Forwarded(order[..n]) + (if IsForwarded(order[n].0) then [order[n]] else [])
  }

  function MapNode(order: seq<(string, string)>): Node {
    Record("", PairEntries(order))
  }

  /** The node of the body, unless parsing the body raises an exception. */
  function BodyNode(fp: Doubles, body: string): Option<Node> {
    match ReadText(fp, body)
    case Ok(v, _) => Some(Plain(fp, v))
    case Fail(_, _) => Some(StringNode(body))
    case Throw => None
  }

  function HeadEntries(r: HttpRequest, backend: string): seq<Entry> {
    [EntryFor("method", StringNode(MethodName(r.verb))), EntryFor("path", StringNode(r.path)),
     EntryFor("backend", StringNode(backend))]
  }

  function MapEntries(r: HttpRequest, orders: Orders): seq<Entry> {
    (if r.pathParameters == map[] then [] else [EntryFor("path_parameters", MapNode(orders.path))]) +
    (if r.query == map[] then [] else [EntryFor("query_parameters", MapNode(orders.query))]) +
    [EntryFor("headers", MapNode(Forwarded(orders.headers)))]
  }

  function BodyEntries(fp: Doubles, body: string): Option<seq<Entry>> {
    if body == "" then Some([])
    else
      match BodyNode(fp, body)
      case None => None
      case Some(node) => Some([EntryFor("body", node)])
  }

  function PayloadEntries(fp: Doubles, r: HttpRequest, backend: string, orders: Orders): Option<seq<Entry>> {
    match BodyEntries(fp, r.body)
    case None => None
    case Some(body) => Some(HeadEntries(r, backend) + MapEntries(r, orders) + body)
  }

  // ---------------------------------------------------------------- what the payload means

  lemma StringEntryOk(fp: Doubles, key: string, value: string)
    ensures EntryOk(fp, EntryFor(key, StringNode(value)))
    ensures EntryMeaning(EntryFor(key, StringNode(value))) == Member(key, String(value))
  {
    LoosePiecesCorrect(key, "");
    LoosePiecesCorrect(value, "");
  }

  lemma NodeEntryOk(fp: Doubles, key: string, node: Node)
    requires NodeOk(fp, node)
    ensures EntryOk(fp, EntryFor(key, node))
    ensures EntryMeaning(EntryFor(key, node)) == Member(key, Meaning(node))
  {
    LoosePiecesCorrect(key, "");
  }

  lemma {:induction false} AllEntriesOk(fp: Doubles, es: seq<Entry>)
    requires forall i :: 0 <= i < |es| ==> EntryOk(fp, es[i])
    ensures EntriesOk(fp, es)
  {
    if es != [] {
      AllEntriesOk(fp, es[1..]);
    }
  }

  /** An object whose members are exactly the entries of a map, each a string. */
  ghost predicate Mirrors(v: Value, m: map<string, string>) {
    && v.Object?
    && (forall k :: Has(v, k) <==> k in m)
    && (forall k :: k in m ==> MemberOf(v, k) == String(m[k]))
  }

  function PairMembers(order: seq<(string, string)>): (ms: seq<Member>)
    ensures |ms| == |order|
    ensures forall i :: 0 <= i < |order| ==> ms[i] == Member(order[i].0, String(order[i].1))
  {
    seq(|order|, i requires 0 <= i < |order| => Member(order[i].0, String(order[i].1)))
  }

  predicate DistinctNames(order: seq<(string, string)>) {
    forall i, j :: 0 <= i < j < |order| ==> order[i].0 != order[j].0
  }

  lemma MapNodeMeaning(fp: Doubles, order: seq<(string, string)>)
    requires DistinctNames(order)
    ensures NodeOk(fp, MapNode(order)) && Meaning(MapNode(order)) == Object(PairMembers(order))
  {
    hide EntryOk, EntryMeaning, EntryFor, StringNode, EntryMeanings, EntriesOk;
    var es := PairEntries(order);
    forall i | 0 <= i < |es| ensures EntryOk(fp, es[i]) && EntryMeaning(es[i]) == PairMembers(order)[i] {
      StringEntryOk(fp, order[i].0, order[i].1);
    }
    AllEntriesOk(fp, es);
    assert EntryMembers(es) == PairMembers(order);
    assert [] + PairMembers(order) == PairMembers(order);
    DistinctMeanings(es, []);
  }

  lemma PairMembersMirror(order: seq<(string, string)>, m: map<string, string>)
    requires DistinctNames(order)
    requires forall i :: 0 <= i < |order| ==> order[i].0 in m && m[order[i].0] == order[i].1
    requires forall k :: k in m ==> exists i :: 0 <= i < |order| && order[i].0 == k
    ensures Mirrors(Object(PairMembers(order)), m)
  {
    var v := Object(PairMembers(order));
    forall k ensures (Has(v, k) <==> k in m) && (k in m ==> MemberOf(v, k) == String(m[k])) {
      var i := IndexOf(v.members, k);
      if k in m {
        var j :| 0 <= j < |order| && order[j].0 == k;
        assert v.members[j].key == k;
      }
    }
  }

  /** An enumeration of a map by count and distinctness misses nothing. */
  lemma EnumerationIsComplete(order: seq<(string, string)>, m: map<string, string>)
    requires Enumerates(order, m)
    ensures forall k :: k in m ==> exists i :: 0 <= i < |order| && order[i].0 == k
  {
    var names := set i | 0 <= i < |order| :: order[i].0;
    CountNames(order);
    assert names <= m.Keys && |names| == |m.Keys|;
    if k :| k in m && k !in names {
      assert names <= m.Keys - {k};
      CardinalityOfSubset(names, m.Keys - {k});
    }
  }

  lemma {:induction false} CountNames(order: seq<(string, string)>)
    requires DistinctNames(order)
    ensures |set i | 0 <= i < |order| :: order[i].0| == |order|
  {
    if order != [] {
      var n := |order| - 1;
      CountNames(order[..n]);
      var before := set i | 0 <= i < n :: order[..n][i].0;
      assert order[n].0 !in before;
      assert (set i | 0 <= i < |order| :: order[i].0) == before + {order[n].0};
    }
  }

  lemma {:induction false} CardinalityOfSubset(a: set<string>, b: set<string>)
    requires a <= b
    ensures |a| <= |b|
  {
    if a != {} {
      var x :| x in a;
      CardinalityOfSubset(a - {x}, b - {x});
    }
  }

  /** The headers that are passed on. */
  function ForwardedHeaders(headers: map<string, string>): map<string, string> {
    map k | k in headers && IsForwarded(k) :: headers[k]
  }

  lemma {:induction false} ForwardedOrder(order: seq<(string, string)>)
    requires DistinctNames(order)
    ensures DistinctNames(Forwarded(order))
    ensures forall p :: p in Forwarded(order) <==> p in order && IsForwarded(p.0)
  {
    hide IsForwarded;
    if order != [] {
      var n := |order| - 1;
      ForwardedOrder(order[..n]);
      var before := Forwarded(order[..n]);
      assert order == order[..n] + [order[n]];
      forall i | 0 <= i < |before| ensures before[i].0 != order[n].0 {
        assert before[i] in order[..n];
        var j :| 0 <= j < n && order[..n][j] == before[i];
        assert order[j] == before[i];
      }
    }
  }

  lemma HeadersMirror(order: seq<(string, string)>, headers: map<string, string>)
    requires Enumerates(order, headers)
    ensures DistinctNames(Forwarded(order))
    ensures Mirrors(Object(PairMembers(Forwarded(order))), ForwardedHeaders(headers))
  {
    hide IsForwarded, Forwarded, Mirrors;
    ForwardedOrder(order);
    EnumerationIsComplete(order, headers);
    var f, m := Forwarded(order), ForwardedHeaders(headers);
    forall i | 0 <= i < |f| ensures f[i].0 in m && m[f[i].0] == f[i].1 {
      assert f[i] in order;
    }
    forall k | k in m ensures exists i :: 0 <= i < |f| && f[i].0 == k {
      var i :| 0 <= i < |order| && order[i].0 == k;
      assert order[i] in f;
    }
    PairMembersMirror(f, m);
  }

  lemma MapMirrors(order: seq<(string, string)>, m: map<string, string>)
    requires Enumerates(order, m)
    ensures Mirrors(Object(PairMembers(order)), m)
  {
    EnumerationIsComplete(order, m);
    PairMembersMirror(order, m);
  }

  // ---------------------------------------------------------------- the meaning of the whole payload

  function HeadMembers(r: HttpRequest, backend: string): seq<Member> {
    [Member("method", String(MethodName(r.verb))), Member("path", String(r.path)), Member("backend", String(backend))]
  }

  function MapMembers(r: HttpRequest, orders: Orders): seq<Member> {
    (if r.pathParameters == map[] then [] else [Member("path_parameters", Object(PairMembers(orders.path)))]) +
    (if r.query == map[] then [] else [Member("query_parameters", Object(PairMembers(orders.query)))]) +
    [Member("headers", Object(PairMembers(Forwarded(orders.headers))))]
  }

  /** The members of the payload, for a body that can be carried. */
  function PayloadMembers(fp: Doubles, r: HttpRequest, backend: string, orders: Orders): seq<Member> {
    HeadMembers(r, backend) + MapMembers(r, orders) + BodyMembers(fp, r.body)
  }

  function BodyMembers(fp: Doubles, body: string): seq<Member> {
    if body == "" then []
    else
      match ReadText(fp, body)
      case Ok(v, _) => [Member("body", v)]
      case _ => [Member("body", String(body))]
  }

  /** The body can be carried: it is no JSON text, or one without floating point numbers. */
  predicate Carriable(fp: Doubles, body: string) {
    body == "" || match ReadText(fp, body)
                  case Ok(v, _) => FloatFree(v)
                  case Fail(_, _) => true
                  case Throw => false
  }

  lemma BodyEntryMeaning(fp: Doubles, body: string)
    requires body != "" && Carriable(fp, body)
    ensures BodyNode(fp, body).Some?
    ensures EntryOk(fp, EntryFor("body", BodyNode(fp, body).value))
    ensures [EntryMeaning(EntryFor("body", BodyNode(fp, body).value))] == BodyMembers(fp, body)
  {
    hide EntryOk, EntryMeaning, EntryFor, StringNode;
    match ReadText(fp, body)
    case Ok(v, _) =>
      ReadValueSound(fp, SkipSpace(body));
      PlainMeaning(fp, v);
      NodeEntryOk(fp, "body", Plain(fp, v));
    case Fail(_, _) =>
      StringEntryOk(fp, "body", body);
  }

  /** Well-formed entries that stand for exactly these members. */
  ghost predicate Mean(fp: Doubles, es: seq<Entry>, ms: seq<Member>) {
    |es| == |ms| && forall i :: 0 <= i < |es| ==> EntryOk(fp, es[i]) && EntryMeaning(es[i]) == ms[i]
  }

  lemma MeanAppend(fp: Doubles, es: seq<Entry>, ms: seq<Member>, es': seq<Entry>, ms': seq<Member>)
    requires Mean(fp, es, ms) && Mean(fp, es', ms')
    ensures Mean(fp, es + es', ms + ms')
  {
    hide EntryOk, EntryMeaning;
  }

  lemma HeadMeans(fp: Doubles, r: HttpRequest, backend: string)
    ensures Mean(fp, HeadEntries(r, backend), HeadMembers(r, backend))
  {
    hide EntryOk, EntryMeaning, EntryFor, StringNode, MethodName;
    StringEntryOk(fp, "method", MethodName(r.verb));
    StringEntryOk(fp, "path", r.path);
    StringEntryOk(fp, "backend", backend);
  }

  lemma MapMeans(fp: Doubles, key: string, order: seq<(string, string)>)
    requires DistinctNames(order)
    ensures Mean(fp, [EntryFor(key, MapNode(order))], [Member(key, Object(PairMembers(order)))])
  {
    hide EntryOk, EntryMeaning, EntryFor, MapNode, PairMembers;
    MapNodeMeaning(fp, order);
    NodeEntryOk(fp, key, MapNode(order));
  }

  lemma NothingMeans(fp: Doubles)
    ensures Mean(fp, [], [])
  {
  }

  lemma MapsMean(fp: Doubles, r: HttpRequest, orders: Orders)
    requires DistinctNames(orders.path) && DistinctNames(orders.query) && DistinctNames(Forwarded(orders.headers))
    ensures Mean(fp, MapEntries(r, orders), MapMembers(r, orders))
  {
    hide Mean, EntryFor, MapNode, PairMembers, Forwarded;
    NothingMeans(fp);
    MapMeans(fp, "path_parameters", orders.path);
    MapMeans(fp, "query_parameters", orders.query);
    MapMeans(fp, "headers", Forwarded(orders.headers));
    MeanAppend(fp,
      if r.pathParameters == map[] then [] else [EntryFor("path_parameters", MapNode(orders.path))],
      if r.pathParameters == map[] then [] else [Member("path_parameters", Object(PairMembers(orders.path)))],
      if r.query == map[] then [] else [EntryFor("query_parameters", MapNode(orders.query))],
      if r.query == map[] then [] else [Member("query_parameters", Object(PairMembers(orders.query)))]);
    MeanAppend(fp,
      (if r.pathParameters == map[] then [] else [EntryFor("path_parameters", MapNode(orders.path))]) +
      (if r.query == map[] then [] else [EntryFor("query_parameters", MapNode(orders.query))]),
      (if r.pathParameters == map[] then [] else [Member("path_parameters", Object(PairMembers(orders.path)))]) +
      (if r.query == map[] then [] else [Member("query_parameters", Object(PairMembers(orders.query)))]),
      [EntryFor("headers", MapNode(Forwarded(orders.headers)))],
      [Member("headers", Object(PairMembers(Forwarded(orders.headers))))]);
  }

  lemma EntriesMean(fp: Doubles, r: HttpRequest, backend: string, orders: Orders)
    requires DistinctNames(orders.path) && DistinctNames(orders.query) && DistinctNames(Forwarded(orders.headers))
    requires Carriable(fp, r.body)
    ensures PayloadEntries(fp, r, backend, orders).Some?
    ensures Mean(fp, PayloadEntries(fp, r, backend, orders).value, PayloadMembers(fp, r, backend, orders))
  {
    HeadMeans(fp, r, backend);
    MapsMean(fp, r, orders);
    BodyMeans(fp, r.body);
    hide Mean, HeadEntries, MapEntries, HeadMembers, MapMembers, BodyEntries, BodyMembers, Carriable, DistinctNames, Forwarded;
    MeanAppend(fp, HeadEntries(r, backend), HeadMembers(r, backend), MapEntries(r, orders), MapMembers(r, orders));
    MeanAppend(fp, HeadEntries(r, backend) + MapEntries(r, orders), HeadMembers(r, backend) + MapMembers(r, orders),
               BodyEntries(fp, r.body).value, BodyMembers(fp, r.body));
  }

  lemma BodyMeans(fp: Doubles, body: string)
    requires Carriable(fp, body)
    ensures BodyEntries(fp, body).Some? && Mean(fp, BodyEntries(fp, body).value, BodyMembers(fp, body))
  {
    hide EntryOk, EntryMeaning, EntryFor, BodyNode, Carriable;
    if body == "" {
      NoBody(fp);
    } else {
      BodyEntryMeaning(fp, body);
    }
  }

  lemma NoBody(fp: Doubles)
    ensures BodyMembers(fp, "") == []
  {
  }

  /** The payload text of a request. */
  function PayloadText(fp: Doubles, r: HttpRequest, backend: string, orders: Orders): Option<string> {
    match PayloadEntries(fp, r, backend, orders)
    case None => None
    case Some(es) => Some(Emit(Record("", es), ""))
  }

  /** There is no payload exactly when the body makes the parser throw. */
  lemma PayloadRaises(fp: Doubles, r: HttpRequest, backend: string, orders: Orders)
    ensures PayloadText(fp, r, backend, orders) == None <==> r.body != "" && ReadText(fp, r.body).Throw?
  {
    hide ReadText, Plain, HeadEntries, MapEntries, StringNode, EntryFor, Emit;
  }

  /** The places of the payload's members. */
  function Rank(key: string): int {
    if key == "method" then 0
    else if key == "path" then 1
    else if key == "backend" then 2
    else if key == "path_parameters" then 3
    else if key == "query_parameters" then 4
    else if key == "headers" then 5
    else if key == "body" then 6
    else 7
  }

  lemma RankOfKeys()
    ensures Rank("method") == 0 && Rank("path") == 1 && Rank("backend") == 2 && Rank("path_parameters") == 3
    ensures Rank("query_parameters") == 4 && Rank("headers") == 5 && Rank("body") == 6
  {
    assert "headers"[0] != "backend"[0] && "body"[0] != "path"[0];
  }

  predicate Ranked(ms: seq<Member>, low: int, high: int) {
    && (forall i :: 0 <= i < |ms| ==> low <= Rank(ms[i].key) < high)
    && (forall i, j :: 0 <= i < j < |ms| ==> Rank(ms[i].key) < Rank(ms[j].key))
  }

  lemma RankedAppend(ms: seq<Member>, ms': seq<Member>, low: int, middle: int, high: int)
    requires low <= middle <= high && Ranked(ms, low, middle) && Ranked(ms', middle, high)
    ensures Ranked(ms + ms', low, high)
  {
    hide Rank;
  }

  lemma BodyRanked(fp: Doubles, body: string)
    ensures Ranked(BodyMembers(fp, body), 6, 7)
  {
    RankOfKeys();
    hide Rank, ReadText;
  }

  lemma HeadRanked(r: HttpRequest, backend: string)
    ensures Ranked(HeadMembers(r, backend), 0, 3)
  {
    RankOfKeys();
    hide Rank, MethodName;
  }

  lemma MapsRanked(r: HttpRequest, orders: Orders)
    ensures Ranked(MapMembers(r, orders), 3, 6)
  {
    RankOfKeys();
    hide Rank, PairMembers, Forwarded;
  }

  /** The payload's keys are distinct, whatever the request. */
  lemma PayloadRanked(fp: Doubles, r: HttpRequest, backend: string, orders: Orders)
    ensures Ranked(PayloadMembers(fp, r, backend, orders), 0, 7)
    ensures UniqueKeys(PayloadMembers(fp, r, backend, orders))
  {
    HeadRanked(r, backend);
    MapsRanked(r, orders);
    BodyRanked(fp, r.body);
    RankedAppend(HeadMembers(r, backend), MapMembers(r, orders), 0, 3, 6);
    RankedAppend(HeadMembers(r, backend) + MapMembers(r, orders), BodyMembers(fp, r.body), 0, 6, 7);
    hide Rank, HeadMembers, MapMembers, BodyMembers;
  }

  /** Parsing the payload gives the object with the payload's members, and reads all of it. */
  lemma PayloadParses(fp: Doubles, r: HttpRequest, backend: string, orders: Orders)
    requires DistinctNames(orders.path) && DistinctNames(orders.query) && DistinctNames(Forwarded(orders.headers))
    requires Carriable(fp, r.body)
    ensures PayloadText(fp, r, backend, orders).Some?
    ensures ReadText(fp, PayloadText(fp, r, backend, orders).value) == Ok(Object(PayloadMembers(fp, r, backend, orders)), "")
  {
    EntriesMean(fp, r, backend, orders);
    PayloadRanked(fp, r, backend, orders);
    var es := PayloadEntries(fp, r, backend, orders).value;
    assert PayloadText(fp, r, backend, orders) == Some(Emit(Record("", es), ""));
    hide *;
    MeaningOfRecord(fp, es, PayloadMembers(fp, r, backend, orders));
    RecordReads(fp, es);
  }

  lemma RecordReads(fp: Doubles, es: seq<Entry>)
    requires NodeOk(fp, Record("", es))
    ensures ReadText(fp, Emit(Record("", es), "")) == Ok(Meaning(Record("", es)), "")
  {
    hide NodeOk, Emit, Meaning, ReadText;
    var n := Record("", es);
    ReadDocument(fp, n, "", "", "");
    assert "" + "" == "";
    assert "" + Emit(n, "") == Emit(n, "");
  }

  lemma MeanMembers(fp: Doubles, es: seq<Entry>, ms: seq<Member>)
    requires Mean(fp, es, ms)
    ensures EntriesOk(fp, es) && EntryMembers(es) == ms
  {
    hide EntryOk, EntryMeaning, EntriesOk;
    AllEntriesOk(fp, es);
  }

  lemma MeaningOfRecord(fp: Doubles, es: seq<Entry>, ms: seq<Member>)
    requires Mean(fp, es, ms) && UniqueKeys(ms)
    ensures NodeOk(fp, Record("", es)) && Meaning(Record("", es)) == Object(ms)
  {
    hide EntriesOk, EntryMeanings, EntryOk, EntryMeaning, EntryMembers, UniqueKeys;
    MeanMembers(fp, es, ms);
    assert [] + EntryMembers(es) == ms;
    DistinctMeanings(es, []);
  }

  /** Where a key occurs in a list without repetition. */
  lemma AtPosition(ms: seq<Member>, i: nat)
    requires UniqueKeys(ms) && i < |ms|
    ensures Has(Object(ms), ms[i].key) && MemberOf(Object(ms), ms[i].key) == ms[i].value
  {
    var j := IndexOf(ms, ms[i].key);
    assert j <= i;
  }

  lemma AbsentByRank(ms: seq<Member>, key: string)
    requires forall i :: 0 <= i < |ms| ==> Rank(ms[i].key) != Rank(key)
    ensures !Has(Object(ms), key)
  {
    hide Rank;
  }

  /** What each member of the payload says. */
  lemma PayloadKeys(fp: Doubles, r: HttpRequest, backend: string, orders: Orders)
    ensures var v := Object(PayloadMembers(fp, r, backend, orders));
            && MemberOf(v, "method") == String(MethodName(r.verb))
            && MemberOf(v, "path") == String(r.path)
            && MemberOf(v, "backend") == String(backend)
            && MemberOf(v, "headers") == Object(PairMembers(Forwarded(orders.headers)))
  {
    hide PairMembers, Forwarded, MethodName, BodyMembers, UniqueKeys, Ranked, IndexOf, Has, MemberOf;
    PayloadRanked(fp, r, backend, orders);
    var ms := PayloadMembers(fp, r, backend, orders);
    AtPosition(ms, 0);
    AtPosition(ms, 1);
    AtPosition(ms, 2);
    AtPosition(ms, 2 + |MapMembers(r, orders)|);
  }

  /** The path parameters are there exactly when the request has some. */
  lemma PayloadPathParameters(fp: Doubles, r: HttpRequest, backend: string, orders: Orders)
    ensures var v := Object(PayloadMembers(fp, r, backend, orders));
            && (Has(v, "path_parameters") <==> r.pathParameters != map[])
            && (r.pathParameters != map[] ==> MemberOf(v, "path_parameters") == Object(PairMembers(orders.path)))
  {
    RankOfKeys();
    hide PairMembers, Forwarded, MethodName, BodyMembers, UniqueKeys, IndexOf, Has, MemberOf, Rank;
    PayloadRanked(fp, r, backend, orders);
    BodyRanked(fp, r.body);
    var ms := PayloadMembers(fp, r, backend, orders);
    if r.pathParameters != map[] {
      AtPosition(ms, 3);
    } else {
      assert forall i :: 0 <= i < 3 ==> Rank(ms[i].key) < 3;
      assert Rank(ms[3].key) > 3;
      forall i | 0 <= i < |ms| ensures Rank(ms[i].key) != 3 {
      }
      AbsentByRank(ms, "path_parameters");
    }
  }

  lemma PayloadQueryParameters(fp: Doubles, r: HttpRequest, backend: string, orders: Orders)
    ensures var v := Object(PayloadMembers(fp, r, backend, orders));
            && (Has(v, "query_parameters") <==> r.query != map[])
            && (r.query != map[] ==> MemberOf(v, "query_parameters") == Object(PairMembers(orders.query)))
  {
    RankOfKeys();
    hide PairMembers, Forwarded, MethodName, BodyMembers, UniqueKeys, IndexOf, Has, MemberOf, Rank;
    PayloadRanked(fp, r, backend, orders);
    BodyRanked(fp, r.body);
    var ms := PayloadMembers(fp, r, backend, orders);
    var n := |MapMembers(r, orders)|;
    if r.query != map[] {
      AtPosition(ms, 1 + n);
    } else {
      assert Rank(ms[2 + n].key) == 5;
      assert Rank(ms[1 + n].key) < 4;
      forall i | 0 <= i < |ms| ensures Rank(ms[i].key) != 4 {
      }
      AbsentByRank(ms, "query_parameters");
    }
  }

  /** The body is there exactly when the request has one: its value if it is JSON, else its text. */
  lemma PayloadBody(fp: Doubles, r: HttpRequest, backend: string, orders: Orders)
    ensures var v := Object(PayloadMembers(fp, r, backend, orders));
            && (Has(v, "body") <==> r.body != "")
            && (r.body != "" ==> MemberOf(v, "body") == match ReadText(fp, r.body)
                                                       case Ok(b, _) => b
                                                       case _ => String(r.body))
  {
    RankOfKeys();
    PayloadRanked(fp, r, backend, orders);
    var ms := PayloadMembers(fp, r, backend, orders);
    var n := |HeadMembers(r, backend) + MapMembers(r, orders)|;
    if r.body != "" {
      hide HeadMembers, MapMembers, UniqueKeys, IndexOf, Has, MemberOf, Rank, ReadText;
      AtPosition(ms, n);
    } else {
      hide PairMembers, Forwarded, MethodName, UniqueKeys, IndexOf, Has, MemberOf, Rank;
      NoBody(fp);
      assert ms == HeadMembers(r, backend) + MapMembers(r, orders);
      HeadRanked(r, backend);
      MapsRanked(r, orders);
      RankedAppend(HeadMembers(r, backend), MapMembers(r, orders), 0, 3, 6);
      AbsentByRank(ms, "body");
    }
  }

  /**
   An object that says of a request exactly its method, path and backend, its path and query
   parameters when it has any, the headers that are passed on, and its body: the value the body
   denotes, or its text when it denotes none.
   */
  ghost predicate Describes(fp: Doubles, v: Value, r: HttpRequest, backend: string) {
    && v.Object?
    && MemberOf(v, "method") == String(MethodName(r.verb)) && MemberOf(v, "path") == String(r.path)
    && MemberOf(v, "backend") == String(backend)
    && (Has(v, "path_parameters") <==> r.pathParameters != map[])
    && (r.pathParameters != map[] ==> Mirrors(MemberOf(v, "path_parameters"), r.pathParameters))
    && (Has(v, "query_parameters") <==> r.query != map[])
    && (r.query != map[] ==> Mirrors(MemberOf(v, "query_parameters"), r.query))
    && Mirrors(MemberOf(v, "headers"), ForwardedHeaders(r.headers))
    && (Has(v, "body") <==> r.body != "")
    && (r.body != "" ==> MemberOf(v, "body") == match ReadText(fp, r.body) case Ok(b, _) => b case _ => String(r.body))
  }

  ghost predicate OrdersOf(orders: Orders, r: HttpRequest) {
    && Enumerates(orders.path, r.pathParameters) && Enumerates(orders.query, r.query)
    && Enumerates(orders.headers, r.headers)
  }

  /**
   Forwarding preserves meaning: whatever order the maps are iterated in, the gateway's own parser
   reads the payload completely, as an object that describes the request.
   */
  lemma ForwardingPreservesMeaning(fp: Doubles, r: HttpRequest, backend: string, orders: Orders) returns (v: Value)
    requires OrdersOf(orders, r) && Carriable(fp, r.body)
    ensures PayloadText(fp, r, backend, orders).Some?
    ensures ReadText(fp, PayloadText(fp, r, backend, orders).value) == Ok(v, "")
    ensures Describes(fp, v, r, backend)
  {
    HeadersMirror(orders.headers, r.headers);
    MapMirrors(orders.path, r.pathParameters);
    MapMirrors(orders.query, r.query);
    hide PayloadText, PayloadMembers, Mirrors, ReadText, MemberOf, Has, Forwarded, PairMembers, MethodName, Carriable;
    PayloadParses(fp, r, backend, orders);
    PayloadKeys(fp, r, backend, orders);
    PayloadPathParameters(fp, r, backend, orders);
    PayloadQueryParameters(fp, r, backend, orders);
    PayloadBody(fp, r, backend, orders);
    v := Object(PayloadMembers(fp, r, backend, orders));
  }

  /** The five headers that are passed on. */
  lemma ForwardedNames(name: string)
    ensures IsForwarded(name) <==>
              || name == "content-type" || name == "accept" || name == "user-agent" || name == "x-request-id"
              || name == "x-forwarded-for"
  {
  }

  /** A header reaches the backend if and only if the request has it and it is one of the five passed on. */
  lemma HeaderReachesBackend(fp: Doubles, v: Value, r: HttpRequest, backend: string, name: string)
    requires Describes(fp, v, r, backend)
    ensures Has(MemberOf(v, "headers"), name) <==>
              && name in r.headers
              && (name == "content-type" || name == "accept" || name == "user-agent" || name == "x-request-id"
                  || name == "x-forwarded-for")
    ensures Has(MemberOf(v, "headers"), name) ==> MemberOf(MemberOf(v, "headers"), name) == String(r.headers[name])
  {
    ForwardedNames(name);
    hide MemberOf, Has, IsForwarded;
  }

  /** The method reaches the backend as its word in capitals. */
  lemma MethodReachesBackend(fp: Doubles, v: Value, r: HttpRequest, backend: string)
    requires Describes(fp, v, r, backend)
    ensures MemberOf(v, "method") == String(
              match r.verb
              case Get => "GET"
              case Post => "POST"
              case Put => "PUT"
              case Delete => "DELETE"
              case Patch => "PATCH"
              case Head => "HEAD"
              case Options => "OPTIONS"
              case Unknown => "UNKNOWN")
  {
    hide MemberOf, Has, Mirrors, ForwardedHeaders, ReadText;
  }

  /** The header under which the gateway records the user a token was issued for. */
  const USER_HEADER := "x-authenticated-user"

  /**
   The documentation says that the backend is told the authenticated user. It is not: a request
   with the user's name recorded in its headers and the same request without it are described by
   exactly the same payload values, and none of them has the header.
   */
  lemma UserIsNotForwarded(fp: Doubles, v: Value, r: HttpRequest, backend: string, user: string)
    ensures Describes(fp, v, r.(headers := r.headers[USER_HEADER := user]), backend) <==> Describes(fp, v, r, backend)
    ensures Describes(fp, v, r, backend) ==> !Has(MemberOf(v, "headers"), USER_HEADER)
  {
    assert !IsForwarded(USER_HEADER) by {
      assert |USER_HEADER| == 20;
    }
    SameForwarded(r.headers, USER_HEADER, user);
    hide Describes, ForwardedHeaders, IsForwarded, Has, MemberOf;
    DescribedAlike(fp, v, r.(headers := r.headers[USER_HEADER := user]), r, backend);
    if Describes(fp, v, r, backend) {
      HeaderReachesBackend(fp, v, r, backend, USER_HEADER);
    }
  }

  /** A description tells of a request nothing but these. */
  lemma DescribedAlike(fp: Doubles, v: Value, r: HttpRequest, s: HttpRequest, backend: string)
    requires r.verb == s.verb && r.path == s.path && r.pathParameters == s.pathParameters && r.query == s.query
    requires ForwardedHeaders(r.headers) == ForwardedHeaders(s.headers) && r.body == s.body
    ensures Describes(fp, v, r, backend) <==> Describes(fp, v, s, backend)
  {
    hide MemberOf, Has, Mirrors, ReadText, ForwardedHeaders, MethodName;
  }

  lemma SameForwarded(headers: map<string, string>, name: string, value: string)
    requires !IsForwarded(name)
    ensures ForwardedHeaders(headers[name := value]) == ForwardedHeaders(headers)
  {
    hide IsForwarded;
  }

  // ---------------------------------------------------------------- the method

  method EscapeJsonString(input: string) returns (result: string)
    ensures result == EscapeJson(input)
  {
    result := "";
    for i := 0 to |input|
      invariant result + EscapeJson(input[i..]) == EscapeJson(input)
    {
      assert input[i..][0] == input[i] && input[i..][1..] == input[i + 1..];
      assert result + EscapeJson(input[i..]) == result + EscapeLoose(input[i]) + EscapeJson(input[i + 1..]);
      result := result + EscapeLoose(input[i]);
    }
  }

  /** How a member is written: its escaped key in quotes, a colon, and its value. */
  lemma EntryText(key: string, node: Node)
    ensures EmitEntry(EntryFor(key, node), "") == "\"" + EscapeJson(key) + "\":" + Emit(node, "")
  {
    hide Emit, EscapeJson, LoosePieces, EmitPieces;
    var value := Emit(node, "");
    assert "" + "" == "" && "" + value == value;
    var colon := [':'] + value;
    assert "" + colon == colon;
    LoosePiecesCorrect(key, ['"'] + colon);
    assert EmitString(LoosePieces(key), colon) == ['"'] + (EscapeJson(key) + (['"'] + colon));
  }

  lemma StringNodeText(text: string)
    ensures Emit(StringNode(text), "") == "\"" + EscapeJson(text) + "\""
  {
    LoosePiecesCorrect(text, ['"'] + "");
    assert ['"'] + "" == "\"";
  }

  /** One more member at the end of an object being written. (The fixed keys contain nothing to escape.) */
  method AddEntry(before: string, first: bool, key: string, value: string, ghost entries: seq<Entry>, ghost node: Node)
    returns (text: string)
    requires before == "{" + Joined(entries) && (first <==> entries == []) && value == Emit(node, "")
    ensures text == "{" + Joined(entries + [EntryFor(key, node)])
  {
    hide Joined, Emit, EmitEntry;
    JoinedAppends(entries, EntryFor(key, node));
    EntryText(key, node);
    text := before;
    if !first {
      text := text + ",";
    }
    var escaped := EscapeJsonString(key);
    ghost var member := "\"" + escaped + "\":" + value;
    text := text + ("\"" + escaped + "\":" + value);
    assert text == "{" + (Joined(entries) + (if first then "" else ",") + member);
  }

  method QuoteText(text: string) returns (quoted: string)
    ensures quoted == Emit(StringNode(text), "")
  {
    StringNodeText(text);
    var escaped := EscapeJsonString(text);
    quoted := "\"" + escaped + "\"";
  }

  lemma ObjectBegins()
    ensures "{" == "{" + Joined([])
  {
  }

  lemma ObjectEnds(entries: seq<Entry>, text: string)
    requires text == "{" + Joined(entries)
    ensures text + "}" == Emit(Record("", entries), "")
  {
    RecordText(entries);
  }

  /** The loop over a map, in its iteration order. */
  method WriteMap(order: seq<(string, string)>) returns (text: string)
    ensures text == Emit(MapNode(order), "")
  {
    hide Joined, Emit, EntryFor, StringNode;
    text := "{";
    ObjectBegins();
    assert PairEntries(order[..0]) == [];
    for i := 0 to |order|
      invariant text == "{" + Joined(PairEntries(order[..i]))
    {
      assert PairEntries(order[..i + 1]) == PairEntries(order[..i]) + [EntryFor(order[i].0, StringNode(order[i].1))];
      var value := QuoteText(order[i].1);
      text := AddEntry(text, i == 0, order[i].0, value, PairEntries(order[..i]), StringNode(order[i].1));
    }
    assert order[..|order|] == order;
    ObjectEnds(PairEntries(order), text);
    text := text + "}";
  }

  lemma NoneForwarded(order: seq<(string, string)>)
    ensures Forwarded(order[..0]) == []
  {
  }

  lemma ForwardedStep(order: seq<(string, string)>, i: nat)
    requires i < |order|
    ensures Forwarded(order[..i + 1]) ==
            if IsForwarded(order[i].0) then Forwarded(order[..i]) + [order[i]] else Forwarded(order[..i])
  {
    hide IsForwarded;
    assert order[..i + 1][..i] == order[..i] && order[..i + 1][i] == order[i];
    assert Forwarded(order[..i]) + [] == Forwarded(order[..i]);
  }

  /** The loop over the headers, which passes on a few of them. */
  method WriteHeaders(order: seq<(string, string)>) returns (text: string)
    ensures text == Emit(MapNode(Forwarded(order)), "")
  {
    hide Joined, Emit, EntryFor, StringNode, IsForwarded, Forwarded;
    text := "{";
    var first := true;
    ObjectBegins();
    NoneForwarded(order);
    assert PairEntries([]) == [];
    for i := 0 to |order|
      invariant text == "{" + Joined(PairEntries(Forwarded(order[..i])))
      invariant first <==> Forwarded(order[..i]) == []
    {
      ghost var before := Forwarded(order[..i]);
      ForwardedStep(order, i);
      if IsForwarded(order[i].0) {
        assert PairEntries(before + [order[i]]) == PairEntries(before) + [EntryFor(order[i].0, StringNode(order[i].1))];
        var value := QuoteText(order[i].1);
        text := AddEntry(text, first, order[i].0, value, PairEntries(before), StringNode(order[i].1));
        first := false;
      }
    }
    assert order[..|order|] == order;
    ObjectEnds(PairEntries(Forwarded(order)), text);
    text := text + "}";
  }

  method WriteBody(fp: Doubles, body: string) returns (text: Option<string>)
    ensures match BodyNode(fp, body)
            case None => text == None
            case Some(node) => text == Some(Emit(node, ""))
  {
    hide Emit, Plain, StringNode, ReadText, Serialize;
    var parser := new JsonParser(fp);
    var verdict, value := parser.Parse(body);
    match verdict {
      case Thrown => text := None;
      case Accepted =>
        var serialized := SerializeValue(fp, value);
        PlainText(fp, value, "");
        assert serialized + "" == serialized;
        text := Some(serialized);
      case Rejected =>
        var quoted := QuoteText(body);
        text := Some(quoted);
    }
  }

  /** `None` where parsing the body throws. */
  method BuildJsonPayload(fp: Doubles, r: HttpRequest, backend: string, orders: Orders) returns (payload: Option<string>)
    ensures payload == PayloadText(fp, r, backend, orders)
  {
    hide Joined, Emit, EntryFor, StringNode, MapNode, BodyNode, MethodName, Forwarded;
    ghost var entries: seq<Entry> := [];
    ObjectBegins();
    var verb := QuoteText(MethodName(r.verb));
    var text := AddEntry("{", true, "method", verb, entries, StringNode(MethodName(r.verb)));
    entries := entries + [EntryFor("method", StringNode(MethodName(r.verb)))];
    var path := QuoteText(r.path);
    text := AddEntry(text, false, "path", path, entries, StringNode(r.path));
    entries := entries + [EntryFor("path", StringNode(r.path))];
    var name := QuoteText(backend);
    text := AddEntry(text, false, "backend", name, entries, StringNode(backend));
    entries := entries + [EntryFor("backend", StringNode(backend))];
    assert entries == HeadEntries(r, backend);
    if r.pathParameters != map[] {
      var parameters := WriteMap(orders.path);
      text := AddEntry(text, false, "path_parameters", parameters, entries, MapNode(orders.path));
      entries := entries + [EntryFor("path_parameters", MapNode(orders.path))];
    }
    if r.query != map[] {
      var parameters := WriteMap(orders.query);
      text := AddEntry(text, false, "query_parameters", parameters, entries, MapNode(orders.query));
      entries := entries + [EntryFor("query_parameters", MapNode(orders.query))];
    }
    var headers := WriteHeaders(orders.headers);
    text := AddEntry(text, false, "headers", headers, entries, MapNode(Forwarded(orders.headers)));
    entries := entries + [EntryFor("headers", MapNode(Forwarded(orders.headers)))];
    assert entries == HeadEntries(r, backend) + MapEntries(r, orders);
    if r.body != "" {
      var body := WriteBody(fp, r.body);
      if body.None? {
        return None;
      }
      text := AddEntry(text, false, "body", body.value, entries, BodyNode(fp, r.body).value);
      entries := entries + [EntryFor("body", BodyNode(fp, r.body).value)];
    }
    assert entries == HeadEntries(r, backend) + MapEntries(r, orders) + BodyEntries(fp, r.body).value;
    ObjectEnds(entries, text);
    payload := Some(text + "}");
  }

  /** The counter that numbers request frames. */
  class Formatter {
    var nextId: int

    constructor ()
      ensures nextId == 1
    {
      nextId := 1;
    }

    /** Frames carry the payload with its true length, and identifiers count up modulo 2^32. */
    method FormatRequestForBackend(fp: Doubles, r: HttpRequest, backend: string, orders: Orders) returns (frame: Option<Frame>)
      requires IsUint32(nextId)
      modifies this
      ensures IsUint32(nextId)
      ensures match PayloadText(fp, r, backend, orders)
              case None => frame == None && nextId == old(nextId)
              case Some(text) =>
                frame == Some(Frame(REQUEST, old(nextId), |text| % 0x1_0000_0000, text))
                && nextId == (old(nextId) + 1) % 0x1_0000_0000
    {
      hide PayloadText;
      var payload := BuildJsonPayload(fp, r, backend, orders);
      if payload.None? {
        return None;
      }
      frame := Some(Frame(REQUEST, nextId, |payload.value| % 0x1_0000_0000, payload.value));
      nextId := (nextId + 1) % 0x1_0000_0000;
    }
  }

  function RequestFrame(id: int, text: string): (f: Frame)
    requires IsUint32(id) && |text| <= MAX_PAYLOAD_SIZE
    ensures WellFormed(f) && f.kind == 2 && f.payload == text && f.id == id
  {
    Frame(REQUEST, id, |text|, text)
  }

  /**
   From the request to the backend: a request whose payload fits a frame arrives, whatever bytes
   follow it, as a frame whose payload the parser reads as an object describing the request.
   */
  lemma RequestArrives(fp: Doubles, r: HttpRequest, backend: string, orders: Orders, id: int, more: string) returns (v: Value)
    requires OrdersOf(orders, r) && Carriable(fp, r.body) && IsUint32(id)
    requires PayloadText(fp, r, backend, orders).Some? && |PayloadText(fp, r, backend, orders).value| <= MAX_PAYLOAD_SIZE
    ensures var stream := Encode(RequestFrame(id, PayloadText(fp, r, backend, orders).value)) + more;
            HasComplete(stream) && Decode(stream).kind == 2 && Decode(stream).id == id
            && ReadText(fp, Decode(stream).payload) == Ok(v, "")
    ensures Describes(fp, v, r, backend)
  {
    hide PayloadText, ReadText, Carriable, OrdersOf, Describes, Encode, Decode, HasComplete, RequestFrame, WellFormed;
    v := ForwardingPreservesMeaning(fp, r, backend, orders);
    DecodeEncode(RequestFrame(id, PayloadText(fp, r, backend, orders).value), more);
  }
}
