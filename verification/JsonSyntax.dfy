/**
 The texts that denote JSON values, and the theorem that the parser reads every one of them.

 A `Node` is a piece of concrete syntax: a value together with the choices a writer is free to
 make: white space around tokens (RFC 8259, section 2), how each character of a string is escaped
 (section 7), repeated keys. `Emit(n, rest)` is its text followed by `rest`; `Meaning(n)` is the
 value it denotes. Serializers are compared with the parser by giving the node they write.
 */
module JsonSyntax {
  import opened Text
  import opened Json
  import opened JsonReader

  datatype Piece =
    | Raw(c: char)
    | Short(letter: char)
    | Code(hex: string)

  datatype Node =
    | NullWord
    | BooleanWord(flag: bool)
    | Number(token: string)
    | Quoted(pieces: seq<Piece>)
    | List(gap: string, items: seq<Item>)
    | Record(gap: string, entries: seq<Entry>)

  datatype Item = Item(before: string, node: Node, after: string)

  datatype Entry = Entry(before: string, key: seq<Piece>, beforeColon: string, afterColon: string,
                         node: Node, after: string)

  // ---------------------------------------------------------------- well-formed syntax

  predicate PieceOk(p: Piece) {
    match p
    case Raw(c) => c != '"' && c != '\\'
    case Short(e) => ShortEscape(e).Some?
    case Code(hex) => |hex| == 4 && ReadHex(hex).Some?
  }

  predicate PiecesOk(ps: seq<Piece>) {
    ps == [] || (PieceOk(ps[0]) && PiecesOk(ps[1..]))
  }

  /** A floating point token: the scanner stops at its end, its mantissa has a digit, and it is in range. */
  predicate IsFloatToken(fp: Doubles, t: string) {
    t != "" && (t[0] == '-' || IsDigit(t[0])) && NumberEnd(t) == (|t|, true) && HasMantissaDigit(t) && fp.converts(t)
  }

  predicate TokenOk(fp: Doubles, t: string) {
    if IsIntegerToken(t) then Stoll(t).Some? else IsFloatToken(fp, t)
  }

  predicate NodeOk(fp: Doubles, n: Node)
    decreases n
  {
    match n
    case NullWord => true
    case BooleanWord(_) => true
    case Number(t) => TokenOk(fp, t)
    case Quoted(ps) => PiecesOk(ps)
    case List(gap, items) => AllSpace(gap) && ItemsOk(fp, items)
    case Record(gap, entries) => AllSpace(gap) && EntriesOk(fp, entries)
  }

  predicate ItemOk(fp: Doubles, item: Item)
    decreases item
  {
    AllSpace(item.before) && AllSpace(item.after) && NodeOk(fp, item.node)
  }

  predicate ItemsOk(fp: Doubles, items: seq<Item>)
    decreases items
  {
    items == [] || (ItemOk(fp, items[0]) && ItemsOk(fp, items[1..]))
  }

  predicate EntryOk(fp: Doubles, e: Entry)
    decreases e
  {
    && AllSpace(e.before) && PiecesOk(e.key) && AllSpace(e.beforeColon) && AllSpace(e.afterColon)
    && NodeOk(fp, e.node) && AllSpace(e.after)
  }

  predicate EntriesOk(fp: Doubles, entries: seq<Entry>)
    decreases entries
  {
    entries == [] || (EntryOk(fp, entries[0]) && EntriesOk(fp, entries[1..]))
  }

  // ---------------------------------------------------------------- text

  function PieceText(p: Piece): string {
    match p
    case Raw(c) => [c]
    case Short(e) => ['\\', e]
    case Code(hex) => ['\\', 'u'] + hex
  }

  function EmitPieces(ps: seq<Piece>, rest: string): string {
    if ps == [] then rest else PieceText(ps[0]) + EmitPieces(ps[1..], rest)
  }

  function EmitString(ps: seq<Piece>, rest: string): string {
    ['"'] + EmitPieces(ps, ['"'] + rest)
  }

  function Emit(n: Node, rest: string): string
    decreases n
  {
    match n
    case NullWord => "null" + rest
    case BooleanWord(b) => (if b then "true" else "false") + rest
    case Number(t) => t + rest
    case Quoted(ps) => EmitString(ps, rest)
    case List(gap, items) => ['['] + (if items == [] then gap + ([']'] + rest) else EmitItems(items, [']'] + rest))
    case Record(gap, entries) =>
      ['{'] + (if entries == [] then gap + (['}'] + rest) else EmitEntries(entries, ['}'] + rest))
  }

  function EmitItems(items: seq<Item>, rest: string): string
    requires items != []
    decreases items
  {
    EmitItem(items[0], if |items| == 1 then rest else [','] + EmitItems(items[1..], rest))
  }

  function EmitItem(item: Item, rest: string): string
    decreases item
  {
    item.before + Emit(item.node, item.after + rest)
  }

  function EmitEntries(entries: seq<Entry>, rest: string): string
    requires entries != []
    decreases entries
  {
    EmitEntry(entries[0], if |entries| == 1 then rest else [','] + EmitEntries(entries[1..], rest))
  }

  function EmitEntry(e: Entry, rest: string): string
    decreases e
  {
    e.before + EmitString(e.key, e.beforeColon + ([':'] + (e.afterColon + Emit(e.node, e.after + rest))))
  }

  // ---------------------------------------------------------------- meaning

  function PieceValue(p: Piece): string {
    match p
    case Raw(c) => [c]
    case Short(e) => if ShortEscape(e).Some? then [ShortEscape(e).value] else ""
    case Code(hex) => if ReadHex(hex).Some? then CodeBytes(ReadHex(hex).value % 0x1_0000_0000) else ""
  }

  function Spelled(ps: seq<Piece>): string {
    if ps == [] then "" else PieceValue(ps[0]) + Spelled(ps[1..])
  }

  function TokenValue(t: string): Value {
    if !IsIntegerToken(t) then Float(t) else if Stoll(t).Some? then Integer(Stoll(t).value) else Null
  }

  function Meaning(n: Node): Value
    decreases n
  {
    match n
    case NullWord => Null
    case BooleanWord(b) => Boolean(b)
    case Number(t) => TokenValue(t)
    case Quoted(ps) => String(Spelled(ps))
    case List(_, items) => Array(ItemMeanings(items))
    case Record(_, entries) => Object(EntryMeanings(entries, []))
  }

  function ItemMeanings(items: seq<Item>): (vs: seq<Value>)
    decreases items
  {
    if items == [] then [] else [Meaning(items[0].node)] + ItemMeanings(items[1..])
  }

  function EntryMeaning(e: Entry): Member
    decreases e
  {
    Member(Spelled(e.key), Meaning(e.node))
  }

  /** The members set one after the other: the last value of a repeated key wins. */
  function EntryMeanings(entries: seq<Entry>, acc: seq<Member>): seq<Member>
    decreases entries
  {
    if entries == [] then acc
    else
      var m := EntryMeaning(entries[0]);
      EntryMeanings(entries[1..], SetMember(acc, m.key, m.value))
  }

  // ---------------------------------------------------------------- the parser reads strings

  lemma ReadPiece(p: Piece, tail: string, acc: string)
    requires PieceOk(p) && tail != ""
    ensures ReadChars(PieceText(p) + tail, acc) == ReadChars(tail, acc + PieceValue(p))
  {
    var s := PieceText(p) + tail;
    assert s[|PieceText(p)|..] == tail;
    if p.Code? {
      assert s[2..6] == p.hex;
    }
  }

  lemma ReadClosingQuote(rest: string, acc: string)
    ensures ReadChars(['"'] + rest, acc) == Ok(acc, rest)
  {
    assert (['"'] + rest)[1..] == rest;
  }

  lemma {:induction false} ReadPieces(ps: seq<Piece>, rest: string, acc: string)
    requires PiecesOk(ps)
    ensures ReadChars(EmitPieces(ps, ['"'] + rest), acc) == Ok(acc + Spelled(ps), rest)
  {
    hide ReadChars, PieceText, PieceValue, PieceOk;
    if ps == [] {
      ReadClosingQuote(rest, acc);
      assert acc + "" == acc;
    } else {
      TailNotEmpty(ps[1..], rest);
      ReadPiece(ps[0], EmitPieces(ps[1..], ['"'] + rest), acc);
      ReadPieces(ps[1..], rest, acc + PieceValue(ps[0]));
      assert acc + PieceValue(ps[0]) + Spelled(ps[1..]) == acc + Spelled(ps);
    }
  }

  lemma {:induction false} TailNotEmpty(ps: seq<Piece>, rest: string)
    ensures |EmitPieces(ps, ['"'] + rest)| > 0
  {
    if ps != [] {
      TailNotEmpty(ps[1..], rest);
    }
  }

  lemma ReadSpelledString(ps: seq<Piece>, rest: string)
    requires PiecesOk(ps)
    ensures ReadString(EmitString(ps, rest)) == Ok(Spelled(ps), rest)
  {
    var s := EmitString(ps, rest);
    assert s[1..] == EmitPieces(ps, ['"'] + rest);
    ReadPieces(ps, rest, "");
    assert "" + Spelled(ps) == Spelled(ps);
  }

  // ---------------------------------------------------------------- the parser reads numbers

  /** The scanner stops exactly at the end of the token `t` when `rest` follows. */
  predicate EndsAt(t: string, rest: string) {
    NumberEnd(t + rest) == (|t|, !IsIntegerToken(t))
  }

  lemma TokenHead(fp: Doubles, t: string)
    requires TokenOk(fp, t)
    ensures t != "" && (t[0] == '-' || IsDigit(t[0]))
  {
  }

  lemma ReadToken(fp: Doubles, t: string, rest: string)
    requires TokenOk(fp, t)
    ensures EndsAt(t, rest) ==> ReadNumber(fp, t + rest) == Ok(TokenValue(t), rest)
  {
    hide HasMantissaDigit, NumberEnd, Stoll;
    var s := t + rest;
    TokenHead(fp, t);
    assert s[..|t|] == t && s[|t|..] == rest;
    IntegerTokenEnd(s);
  }

  /** After an integer token only a digit, a point or an exponent would be read on. */
  lemma IntegerEndsAt(t: string, rest: string)
    requires IsIntegerToken(t) && Stoll(t).Some?
    ensures EndsAt(t, rest) <==>
            rest == "" || (!IsDigit(rest[0]) && rest[0] != '.' && rest[0] != 'e' && rest[0] != 'E')
  {
    var s := t + rest;
    assert s[..|t|] == t && s[|t|..] == rest;
    if rest == "" || !IsDigit(rest[0]) {
      if t != "" && t[0] == '-' {
        assert s[1..] == t[1..] + rest;
        DigitRunOf(t[1..], rest);
      } else {
        DigitRunOf(t, rest);
      }
      assert IntegerLength(s) == |t|;
    } else {
      assert s[|t|] == rest[0];
      hide DigitRun;
      IntegerLengthIsMaximal(s);
    }
  }

  lemma IntegerLengthIsMaximal(s: string)
    ensures var n := IntegerLength(s); n < |s| && n > 0 ==> !IsDigit(s[n])
    ensures IntegerLength(s) == 0 && s != "" ==> !IsDigit(s[0])
  {
    if s != "" && s[0] == '-' {
      var m := DigitRun(s[1..]);
      assert m < |s[1..]| ==> s[1..][m] == s[m + 1];
    }
  }

  /** White space, commas and brackets end every number. */
  predicate Separates(rest: string) {
    rest == "" || IsSpace(rest[0]) || rest[0] == ',' || rest[0] == ']' || rest[0] == '}'
  }

  lemma {:induction false} DigitRunBefore(s: string, rest: string)
    requires Separates(rest)
    ensures DigitRun(s + rest) == DigitRun(s)
  {
    var n := DigitRun(s);
    assert s + rest == s[..n] + (s[n..] + rest);
    assert (s[n..] + rest) != "" ==> !IsDigit((s[n..] + rest)[0]);
    DigitRunOf(s[..n], s[n..] + rest);
  }

  /** What a separator follows cannot change what the scanner found before it. */
  lemma SeparatorEnds(fp: Doubles, t: string, rest: string)
    requires TokenOk(fp, t) && Separates(rest)
    ensures EndsAt(t, rest)
  {
    hide Stoll, HasMantissaDigit, NumberEnd, Separates;
    if IsIntegerToken(t) {
      IntegerEndsAt(t, rest);
      if rest != "" {
        SeparatorIsNoDigit(rest);
      }
    } else {
      hide IsIntegerToken;
      NumberEndBefore(t, rest);
    }
  }

  lemma SeparatorIsNoDigit(rest: string)
    requires Separates(rest) && rest != ""
    ensures !IsDigit(rest[0]) && rest[0] != '.' && rest[0] != 'e' && rest[0] != 'E'
  {
  }

  lemma NumberEndBefore(t: string, rest: string)
    requires NumberEnd(t).0 == |t| && Separates(rest)
    ensures NumberEnd(t + rest) == NumberEnd(t)
  {
    hide IntegerLength, FractionLength, ExponentLength, Separates;
    var b := IntegerLength(t);
    var c := b + FractionLength(t[b..]);
    IntegerBefore(t, rest);
    assert (t + rest)[b..] == t[b..] + rest;
    FractionBefore(t[b..], rest);
    assert (t + rest)[c..] == t[c..] + rest;
    ExponentBefore(t[c..], rest);
  }

  lemma IntegerBefore(s: string, rest: string)
    requires Separates(rest)
    ensures IntegerLength(s + rest) == IntegerLength(s)
  {
    DigitRunBefore(s, rest);
    if s == "" {
      assert s + rest == rest;
      assert rest == "" || rest[0] != '-';
      assert DigitRun(rest) == DigitRun("") == 0;
    } else {
      assert (s + rest)[1..] == s[1..] + rest && (s + rest)[0] == s[0];
      DigitRunBefore(s[1..], rest);
      hide DigitRun;
    }
  }

  lemma FractionBefore(s: string, rest: string)
    requires Separates(rest)
    ensures FractionLength(s + rest) == FractionLength(s)
  {
    hide DigitRun;
    if |s| >= 1 {
      assert (s + rest)[1..] == s[1..] + rest;
      DigitRunBefore(s[1..], rest);
    }
  }

  lemma ExponentBefore(s: string, rest: string)
    requires Separates(rest)
    ensures ExponentLength(s + rest) == ExponentLength(s)
  {
    hide DigitRun;
    if |s| >= 1 {
      assert (s + rest)[1..] == s[1..] + rest;
      DigitRunBefore(s[1..], rest);
    }
    if |s| >= 2 {
      assert (s + rest)[2..] == s[2..] + rest;
      DigitRunBefore(s[2..], rest);
    }
  }

  // ---------------------------------------------------------------- the parser reads nodes

  /** What may follow a node so that the parser stops where the node ends. */
  predicate MayFollow(n: Node, rest: string) {
    n.Number? ==> EndsAt(n.token, rest)
  }

  lemma EmitHead(fp: Doubles, n: Node, rest: string)
    requires NodeOk(fp, n)
    ensures var s := Emit(n, rest);
            s != "" && !IsSpace(s[0]) && s[0] != ']' && s[0] != '}'
  {
    hide TokenOk;
    match n
    case Number(t) => TokenHead(fp, t);
    case _ =>
  }

  lemma FollowsNode(fp: Doubles, n: Node, gap: string, more: string)
    requires NodeOk(fp, n) && AllSpace(gap) && Separates(more)
    ensures MayFollow(n, gap + more)
  {
    hide TokenOk, EndsAt;
    assert Separates(gap + more);
    if n.Number? {
      SeparatorEnds(fp, n.token, gap + more);
    }
  }

  lemma ItemsHead(fp: Doubles, items: seq<Item>, rest: string)
    requires items != [] && ItemsOk(fp, items)
    ensures var s := SkipSpace(EmitItems(items, rest)); s != "" && s[0] != ']'
  {
    var item := items[0];
    var after := item.after + (if |items| == 1 then rest else [','] + EmitItems(items[1..], rest));
    EmitHead(fp, item.node, after);
    SkipSpaceOver(item.before, Emit(item.node, after));
  }

  /** `ParseValue` chooses a reader by the first character that is not white space. */
  lemma Dispatch(fp: Doubles, text: string, s: string)
    requires SkipSpace(text) == s && s != ""
    ensures s[0] == 'n' ==> ReadValue(fp, text) == ReadNull(s)
    ensures s[0] == 't' || s[0] == 'f' ==> ReadValue(fp, text) == ReadBoolean(s)
    ensures s[0] == '-' || IsDigit(s[0]) ==> ReadValue(fp, text) == ReadNumber(fp, s)
    ensures s[0] == '"' && ReadString(s).Ok? ==>
              ReadValue(fp, text) == Ok(String(ReadString(s).value), ReadString(s).rest)
    ensures s[0] == '[' ==> ReadValue(fp, text) == ReadArray(fp, s)
    ensures s[0] == '{' ==> ReadValue(fp, text) == ReadObject(fp, s)
  {
  }

  /** One turn of the loop of `ParseArray`. */
  lemma ElementsStep(fp: Doubles, s: string, acc: seq<Value>, v: Value, rest: string, next: string)
    requires s != "" && ReadValue(fp, SkipSpace(s)) == Ok(v, rest)
    requires SkipSpace(rest) == next && next != ""
    ensures next[0] == ',' ==> ReadElements(fp, s, acc) == ReadElements(fp, next[1..], acc + [v])
    ensures next[0] == ']' ==> ReadElements(fp, s, acc) == Ok(Array(acc + [v]), next[1..])
  {
  }

  lemma MemberStep(fp: Doubles, s: string, key: string, rest: string, value: string, v: Value, rest': string)
    requires ReadString(SkipSpace(s)) == Ok(key, rest)
    requires SkipSpace(rest) == [':'] + value
    requires ReadValue(fp, SkipSpace(value)) == Ok(v, rest')
    ensures ReadMember(fp, s) == Ok(Member(key, v), rest')
  {
    assert ([':'] + value)[1..] == value;
  }

  /** One turn of the loop of `ParseObject`. */
  lemma MembersStep(fp: Doubles, s: string, acc: seq<Member>, m: Member, rest: string, next: string)
    requires s != "" && ReadMember(fp, s) == Ok(m, rest)
    requires SkipSpace(rest) == next && next != ""
    ensures next[0] == ',' ==> ReadMembers(fp, s, acc) == ReadMembers(fp, next[1..], SetMember(acc, m.key, m.value))
    ensures next[0] == '}' ==> ReadMembers(fp, s, acc) == Ok(Object(SetMember(acc, m.key, m.value)), next[1..])
  {
  }

  /**
   The parser reads every text that denotes a value as that value, and leaves exactly what
   follows it, whatever that is unless it would extend a number.
   */
  lemma {:induction false} ReadNode(fp: Doubles, n: Node, before: string, rest: string)
    requires NodeOk(fp, n) && AllSpace(before) && MayFollow(n, rest)
    ensures ReadValue(fp, before + Emit(n, rest)) == Ok(Meaning(n), rest)
    decreases n, 1
  {
    var s := Emit(n, rest);
    SkipSpaceOver(before, s);
    EmitHead(fp, n, rest);
    Dispatch(fp, before + s, s);
    match n {
      case NullWord =>
        assert s[..4] == "null" && s[4..] == rest;
      case BooleanWord(b) =>
        if b {
          assert s[..4] == "true" && s[4..] == rest;
        } else {
          assert s[0] == 'f' && s[..4][0] == 'f';
          assert s[..5] == "false" && s[5..] == rest;
        }
      case Number(t) =>
        TokenHead(fp, t);
        ReadToken(fp, t, rest);
      case Quoted(ps) =>
        ReadSpelledString(ps, rest);
      case List(gap, items) =>
        ReadList(fp, n, rest);
      case Record(gap, entries) =>
        ReadRecord(fp, n, rest);
    }
  }

  lemma {:induction false} ReadList(fp: Doubles, n: Node, rest: string)
    requires n.List? && NodeOk(fp, n)
    ensures ReadArray(fp, Emit(n, rest)) == Ok(Meaning(n), rest)
    decreases n, 0
  {
    var s := Emit(n, rest);
    var close := [']'] + rest;
    assert close[1..] == rest;
    if n.items == [] {
      assert s[1..] == n.gap + close;
      SkipSpaceOver(n.gap, close);
    } else {
      assert s[1..] == EmitItems(n.items, close);
      ItemsHead(fp, n.items, close);
      ReadItems(fp, n.items, SkipSpace(s[1..]), rest, []);
      assert [] + ItemMeanings(n.items) == ItemMeanings(n.items);
    }
  }

  lemma {:induction false} ReadItem(fp: Doubles, item: Item, s: string, more: string)
    requires ItemOk(fp, item) && Separates(more)
    requires SkipSpace(s) == SkipSpace(EmitItem(item, more))
    ensures ReadValue(fp, SkipSpace(s)) == Ok(Meaning(item.node), item.after + more)
    decreases item
  {
    FollowsNode(fp, item.node, item.after, more);
    ReadNode(fp, item.node, item.before, item.after + more);
  }

  /** The definitions about a non-empty list, unfolded once. */
  lemma UnfoldItems(items: seq<Item>, rest: string)
    requires items != []
    ensures EmitItems(items, rest) ==
            EmitItem(items[0], if |items| == 1 then rest else [','] + EmitItems(items[1..], rest))
    ensures ItemMeanings(items) == [Meaning(items[0].node)] + ItemMeanings(items[1..])
    ensures ItemMeanings([]) == []
  {
  }

  lemma UnfoldItemsOk(fp: Doubles, items: seq<Item>)
    requires items != []
    ensures ItemsOk(fp, items) <==> ItemOk(fp, items[0]) && ItemsOk(fp, items[1..])
  {
  }

  lemma {:induction false} ReadItems(fp: Doubles, items: seq<Item>, s: string, rest: string, acc: seq<Value>)
    requires items != [] && ItemsOk(fp, items)
    requires s != "" && SkipSpace(s) == SkipSpace(EmitItems(items, [']'] + rest))
    ensures ReadElements(fp, s, acc) == Ok(Array(acc + ItemMeanings(items)), rest)
    decreases items, 0
  {
    hide *;
    var close := [']'] + rest;
    var item := items[0];
    var next := if |items| == 1 then close else [','] + EmitItems(items[1..], close);
    UnfoldItems(items, close);
    UnfoldItemsOk(fp, items);
    assert Separates(next) && SkipSpace(item.after + next) == next by {
      ItemGap(fp, item, next);
    }
    ReadItem(fp, item, s, next);
    var v := Meaning(item.node);
    ElementsStep(fp, s, acc, v, item.after + next, next);
    if |items| == 1 {
      assert items[1..] == [];
      assert next[1..] == rest;
      assert [v] + ItemMeanings(items[1..]) == [v];
    } else {
      assert next[1..] == EmitItems(items[1..], close);
      ItemGap(fp, item, close);
      ItemsHead(fp, items[1..], close);
      ReadItems(fp, items[1..], next[1..], rest, acc + [v]);
      assert acc + [v] + ItemMeanings(items[1..]) == acc + ([v] + ItemMeanings(items[1..]));
    }
  }

  lemma ItemGap(fp: Doubles, item: Item, next: string)
    requires ItemOk(fp, item) && next != "" && (next[0] == ',' || next[0] == ']')
    ensures Separates(next) && SkipSpace(item.after + next) == next
  {
    SkipSpaceOver(item.after, next);
  }

  lemma {:induction false} ReadRecord(fp: Doubles, n: Node, rest: string)
    requires n.Record? && NodeOk(fp, n)
    ensures ReadObject(fp, Emit(n, rest)) == Ok(Meaning(n), rest)
    decreases n, 0
  {
    var s := Emit(n, rest);
    var close := ['}'] + rest;
    assert close[1..] == rest;
    if n.entries == [] {
      assert s[1..] == n.gap + close;
      SkipSpaceOver(n.gap, close);
    } else {
      assert s[1..] == EmitEntries(n.entries, close);
      EntriesHead(fp, n.entries, close);
      ReadEntries(fp, n.entries, SkipSpace(s[1..]), rest, []);
    }
  }

  lemma EntriesHead(fp: Doubles, entries: seq<Entry>, rest: string)
    requires entries != [] && EntriesOk(fp, entries)
    ensures var s := SkipSpace(EmitEntries(entries, rest)); s != "" && s[0] == '"'
  {
    var e := entries[0];
    var more := if |entries| == 1 then rest else [','] + EmitEntries(entries[1..], rest);
    var colon := e.beforeColon + ([':'] + (e.afterColon + Emit(e.node, e.after + more)));
    SkipSpaceOver(e.before, EmitString(e.key, colon));
  }

  lemma {:induction false} ReadEntry(fp: Doubles, e: Entry, s: string, more: string)
    requires EntryOk(fp, e) && Separates(more)
    requires SkipSpace(s) == SkipSpace(EmitEntry(e, more))
    ensures ReadMember(fp, s) == Ok(EntryMeaning(e), e.after + more)
    decreases e
  {
    hide ReadMember, ReadValue, ReadString, Emit;
    var value := e.afterColon + Emit(e.node, e.after + more);
    var colon := e.beforeColon + ([':'] + value);
    SkipSpaceOver(e.before, EmitString(e.key, colon));
    ReadSpelledString(e.key, colon);
    SkipSpaceOver(e.beforeColon, [':'] + value);
    FollowsNode(fp, e.node, e.after, more);
    ReadNode(fp, e.node, e.afterColon, e.after + more);
    ReadValueSkips(fp, value);
    MemberStep(fp, s, Spelled(e.key), colon, value, Meaning(e.node), e.after + more);
  }

  lemma UnfoldEntries(fp: Doubles, entries: seq<Entry>, acc: seq<Member>)
    requires entries != []
    ensures EntryMeanings(entries, acc) ==
            var m := EntryMeaning(entries[0]); EntryMeanings(entries[1..], SetMember(acc, m.key, m.value))
    ensures EntriesOk(fp, entries) <==> EntryOk(fp, entries[0]) && EntriesOk(fp, entries[1..])
  {
  }

  lemma {:induction false} ReadEntries(fp: Doubles, entries: seq<Entry>, s: string, rest: string, acc: seq<Member>)
    requires entries != [] && EntriesOk(fp, entries)
    requires s != "" && SkipSpace(s) == SkipSpace(EmitEntries(entries, ['}'] + rest))
    ensures ReadMembers(fp, s, acc) == Ok(Object(EntryMeanings(entries, acc)), rest)
    decreases entries, 0
  {
    var close := ['}'] + rest;
    var e := entries[0];
    var next := if |entries| == 1 then close else [','] + EmitEntries(entries[1..], close);
    ReadEntry(fp, e, s, next);
    SkipSpaceOver(e.after, next);
    var m := EntryMeaning(e);
    var acc' := SetMember(acc, m.key, m.value);
    MembersStep(fp, s, acc, m, e.after + next, next);
    if |entries| == 1 {
      assert next[1..] == rest;
      assert EntryMeanings(entries[1..], acc') == acc';
    } else {
      assert next[1..] == EmitEntries(entries[1..], close);
      EntriesHead(fp, entries[1..], close);
      ReadEntries(fp, entries[1..], next[1..], rest, acc');
    }
  }

  /** The same for a whole text: white space around the value is skipped as well. */
  lemma ReadDocument(fp: Doubles, n: Node, before: string, after: string, rest: string)
    requires NodeOk(fp, n) && AllSpace(before) && AllSpace(after) && MayFollow(n, after + rest)
    requires rest != "" ==> !IsSpace(rest[0])
    ensures ReadText(fp, before + Emit(n, after + rest)) == Ok(Meaning(n), rest)
  {
    EmitHead(fp, n, after + rest);
    SkipSpaceOver(before, Emit(n, after + rest));
    ReadNode(fp, n, "", after + rest);
    assert "" + Emit(n, after + rest) == Emit(n, after + rest);
    SkipSpaceOver(after, rest);
  }
}
