/**
 Exactly which texts the parser accepts.

 What it accepts is a text that denotes the value it returns, by syntax whose floating point tokens the
 library converts, with one exception: at the end of the input it also accepts an array or object that was never closed,
 right after its opening bracket or after a comma. `EmitOpen` is the text of such a beginning.
 */
module JsonAcceptance {
  import opened Text
  import opened Json
  import opened JsonReader
  import opened JsonSyntax

  // ---------------------------------------------------------------- strings

  lemma {:induction false} CharsAreSyntax(s: string, acc: string) returns (ps: seq<Piece>)
    requires ReadChars(s, acc).Ok?
    ensures PiecesOk(ps) && s == EmitPieces(ps, ['"'] + ReadChars(s, acc).rest)
    ensures ReadChars(s, acc).value == acc + Spelled(ps)
    decreases |s|
  {
    hide *;
    CharsTurn(s, acc);
    NoPieces(['"'] + ReadChars(s, acc).rest);
    if s[0] == '"' {
      ps := [];
      assert acc + "" == acc;
    } else {
      var p, n := FirstPiece(s).0, FirstPiece(s).1;
      var tail := CharsAreSyntax(s[n..], acc + PieceValue(p));
      ps := [p] + tail;
      OnePiece(p, tail, ['"'] + ReadChars(s, acc).rest);
      assert s == s[..n] + s[n..];
      assert acc + PieceValue(p) + Spelled(tail) == acc + (PieceValue(p) + Spelled(tail));
    }
  }

  /** The piece at the front of string content, and its length. */
  function FirstPiece(s: string): (r: (Piece, nat))
    requires s != "" && s[0] != '"'
  {
    if s[0] != '\\' then (Raw(s[0]), 1)
    else if |s| > 1 && ShortEscape(s[1]).Some? then (Short(s[1]), 2)
    else if |s| > 5 then (Code(s[2..6]), 6)
    else (Raw(s[0]), 1)
  }

  /** What an accepted turn of the loop of `ParseString` looked like. */
  lemma CharsTurn(s: string, acc: string)
    requires ReadChars(s, acc).Ok?
    ensures s != ""
    ensures s[0] == '"' ==> ReadChars(s, acc) == Ok(acc, s[1..]) && s == ['"'] + s[1..]
    ensures s[0] != '"' ==>
              var p, n := FirstPiece(s).0, FirstPiece(s).1;
              && 0 < n <= |s| && PieceOk(p) && s[..n] == PieceText(p)
              && ReadChars(s, acc) == ReadChars(s[n..], acc + PieceValue(p))
  {
    hide CodeBytes, ReadHex;
    if s[0] == '\\' && ShortEscape(s[1]).None? {
      assert s[..6] == ['\\', 'u'] + s[2..6];
    }
  }

  lemma NoPieces(rest: string)
    ensures PiecesOk([]) && EmitPieces([], rest) == rest && Spelled([]) == ""
  {
  }

  lemma OnePiece(p: Piece, tail: seq<Piece>, rest: string)
    ensures var ps := [p] + tail;
            && (PiecesOk(ps) <==> PieceOk(p) && PiecesOk(tail))
            && EmitPieces(ps, rest) == PieceText(p) + EmitPieces(tail, rest)
            && Spelled(ps) == PieceValue(p) + Spelled(tail)
  {
    hide PieceOk, PieceText, PieceValue;
    assert ([p] + tail)[1..] == tail;
  }

  lemma StringIsSyntax(s: string) returns (ps: seq<Piece>)
    requires ReadString(s).Ok?
    ensures PiecesOk(ps) && s == EmitString(ps, ReadString(s).rest) && ReadString(s).value == Spelled(ps)
  {
    hide ReadChars, PiecesOk, EmitPieces, Spelled;
    ps := CharsAreSyntax(s[1..], "");
    assert s == ['"'] + s[1..];
    assert "" + Spelled(ps) == Spelled(ps);
  }

  // ---------------------------------------------------------------- numbers

  lemma NumberIsSyntax(fp: Doubles, s: string)
    requires s != "" && (s[0] == '-' || IsDigit(s[0])) && ReadNumber(fp, s).Ok?
    ensures var t := s[..NumberEnd(s).0]; var rest := ReadNumber(fp, s).rest;
            && TokenOk(fp, t) && EndsAt(t, rest) && s == t + rest && ReadNumber(fp, s).value == TokenValue(t)
  {
    hide HasMantissaDigit, Stoll;
    var (n, isFloat) := NumberEnd(s);
    assert s == s[..n] + s[n..];
    IntegerTokenEnd(s);
    if isFloat {
      FloatTokenEnd(s);
    }
  }

  /** Cutting a floating point token out of its text leaves a floating point token. */
  lemma FloatTokenEnd(s: string)
    requires NumberEnd(s).1
    ensures var n := NumberEnd(s).0; NumberEnd(s[..n]) == (n, true) && !IsIntegerToken(s[..n])
  {
    hide IntegerLength, FractionLength, ExponentLength;
    var b := IntegerLength(s);
    var c := b + FractionLength(s[b..]);
    var n := NumberEnd(s).0;
    var t := s[..n];
    IntegerOfPrefix(s, n);
    assert s[b..][..n - b] == t[b..];
    FractionOfPrefix(s[b..], n - b);
    assert s[c..][..n - c] == t[c..];
    ExponentOfPrefix(s[c..]);
    if IsIntegerToken(t) {
      IntegerTokenLength(t);
    }
  }

  lemma {:induction false} DigitRunOfPrefix(s: string, n: nat)
    requires DigitRun(s) <= n <= |s|
    ensures DigitRun(s[..n]) == DigitRun(s)
  {
    var d := DigitRun(s);
    assert s[..n] == s[..d] + s[d..n];
    assert s[d..n] != "" ==> s[d..n][0] == s[d];
    DigitRunOf(s[..d], s[d..n]);
  }

  lemma IntegerOfPrefix(s: string, n: nat)
    requires IntegerLength(s) <= n <= |s|
    ensures IntegerLength(s[..n]) == IntegerLength(s)
  {
    hide DigitRun;
    if s != "" && s[0] == '-' {
      assert s[..n][1..] == s[1..][..n - 1];
      DigitRunOfPrefix(s[1..], n - 1);
    } else {
      DigitRunOfPrefix(s, n);
    }
  }

  lemma FractionOfPrefix(s: string, n: nat)
    requires FractionLength(s) <= n <= |s|
    ensures FractionLength(s[..n]) == FractionLength(s)
  {
    hide DigitRun;
    if s != "" && s[0] == '.' {
      assert s[..n][1..] == s[1..][..n - 1];
      DigitRunOfPrefix(s[1..], n - 1);
    }
  }

  lemma ExponentOfPrefix(s: string)
    ensures ExponentLength(s[..ExponentLength(s)]) == ExponentLength(s)
  {
    hide DigitRun;
    var n := ExponentLength(s);
    var t := s[..n];
    if n > 1 && (s[1] == '+' || s[1] == '-') {
      assert t[2..] == s[2..][..n - 2];
      DigitRunOfPrefix(s[2..], n - 2);
    } else if n > 0 {
      assert t[1..] == s[1..][..n - 1];
      DigitRunOfPrefix(s[1..], n - 1);
    }
  }

  lemma IntegerTokenLength(t: string)
    requires IsIntegerToken(t)
    ensures IntegerLength(t) == |t|
  {
    if t != "" && t[0] == '-' {
      assert t[1..] + "" == t[1..];
      DigitRunOf(t[1..], "");
    } else {
      assert t + "" == t;
      DigitRunOf(t, "");
    }
  }

  // ---------------------------------------------------------------- white space

  lemma {:induction false} SpacesJoin(a: string, b: string)
    requires AllSpace(a) && AllSpace(b)
    ensures AllSpace(a + b)
  {
  }

  /** The white space that is skipped at the front. */
  lemma {:induction false} Skipped(s: string) returns (before: string)
    ensures AllSpace(before) && s == before + SkipSpace(s)
  {
    if s != "" && IsSpace(s[0]) {
      var w := Skipped(s[1..]);
      before := [s[0]] + w;
    } else {
      before := "";
    }
  }

  // ---------------------------------------------------------------- unclosed arrays and objects

  /** An array or object that breaks off after its bracket or after a comma. */
  function EmitOpen(n: Node): string {
    match n
    case List(gap, items) => ['['] + (if items == [] then gap else EmitItems(items, [',']))
    case Record(gap, entries) => ['{'] + (if entries == [] then gap else EmitEntries(entries, [',']))
    case _ => ""
  }

  /** How an accepted value sits in its text: closed, or broken off by the end of the input. */
  datatype Shape = Closed | Open

  /** The text `s` denotes `v` by the syntax `n`, and `rest` is left. */
  ghost predicate Denotes(fp: Doubles, s: string, before: string, n: Node, shape: Shape, v: Value, rest: string) {
    && AllSpace(before) && NodeOk(fp, n) && Meaning(n) == v
    && match shape
       case Closed => s == before + Emit(n, rest) && MayFollow(n, rest)
       case Open => (n.List? || n.Record?) && rest == "" && s == before + EmitOpen(n)
  }

  // ---------------------------------------------------------------- values

  lemma {:induction false} ValueIsSyntax(fp: Doubles, text: string) returns (before: string, n: Node, shape: Shape)
    requires ReadValue(fp, text).Ok?
    ensures Denotes(fp, text, before, n, shape, ReadValue(fp, text).value, ReadValue(fp, text).rest)
    decreases |text|, 2
  {
    hide *;
    before := Skipped(text);
    var s := SkipSpace(text);
    shape := Closed;
    ValueTurn(fp, text, s);
    if s[0] == '[' {
      n, shape := ArrayIsSyntax(fp, s);
      DenotesAfter(fp, before, s, n, shape, ReadValue(fp, text).value, ReadValue(fp, text).rest);
    } else if s[0] == '{' {
      n, shape := ObjectIsSyntax(fp, s);
      DenotesAfter(fp, before, s, n, shape, ReadValue(fp, text).value, ReadValue(fp, text).rest);
    } else {
      n := ScalarIsSyntax(fp, text, s);
      DenotesAfter(fp, before, s, n, shape, ReadValue(fp, text).value, ReadValue(fp, text).rest);
    }
  }

  /** What an accepted value starts with, and which reader accepted it. */
  lemma ValueTurn(fp: Doubles, text: string, s: string)
    requires ReadValue(fp, text).Ok? && s == SkipSpace(text)
    ensures s != "" && |s| <= |text|
    ensures s[0] == '[' ==> ReadValue(fp, text) == ReadArray(fp, s)
    ensures s[0] == '{' ==> ReadValue(fp, text) == ReadObject(fp, s)
    ensures s[0] == 'n' ==> ReadValue(fp, text) == ReadNull(s)
    ensures s[0] == 't' || s[0] == 'f' ==> ReadValue(fp, text) == ReadBoolean(s)
    ensures s[0] == '-' || IsDigit(s[0]) ==> ReadValue(fp, text) == ReadNumber(fp, s)
    ensures s[0] == '"' ==> ReadString(s).Ok? && ReadValue(fp, text) == Ok(String(ReadString(s).value), ReadString(s).rest)
    ensures s[0] == 'n' || s[0] == 't' || s[0] == 'f' || s[0] == '-' || IsDigit(s[0]) || s[0] == '"' || s[0] == '[' || s[0] == '{'
  {
    hide ReadNull, ReadBoolean, ReadNumber, ReadString, ReadArray, ReadObject;
  }

  lemma DenotesAfter(fp: Doubles, before: string, s: string, n: Node, shape: Shape, v: Value, rest: string)
    requires AllSpace(before) && Denotes(fp, s, "", n, shape, v, rest)
    ensures Denotes(fp, before + s, before, n, shape, v, rest)
  {
    hide Emit, EmitOpen, NodeOk, Meaning, AllSpace, MayFollow;
    assert "" + Emit(n, rest) == Emit(n, rest);
    assert "" + EmitOpen(n) == EmitOpen(n);
  }

  lemma ScalarIsSyntax(fp: Doubles, text: string, s: string) returns (n: Node)
    requires ReadValue(fp, text).Ok? && s == SkipSpace(text) && s != "" && s[0] != '[' && s[0] != '{'
    ensures Denotes(fp, s, "", n, Closed, ReadValue(fp, text).value, ReadValue(fp, text).rest)
  {
    hide *;
    ValueTurn(fp, text, s);
    if s[0] == '"' {
      var ps := StringIsSyntax(s);
      n := Quoted(ps);
      QuotedDenotes(fp, s, ps, ReadString(s).rest);
    } else if s[0] == '-' || IsDigit(s[0]) {
      NumberIsSyntax(fp, s);
      n := Number(s[..NumberEnd(s).0]);
      NumberDenotes(fp, s, s[..NumberEnd(s).0], ReadNumber(fp, s).rest);
    } else {
      n := WordDenotes(fp, s);
    }
  }

  lemma QuotedDenotes(fp: Doubles, s: string, ps: seq<Piece>, rest: string)
    requires PiecesOk(ps) && s == EmitString(ps, rest)
    ensures Denotes(fp, s, "", Quoted(ps), Closed, String(Spelled(ps)), rest)
  {
    hide PiecesOk, EmitString, Spelled;
    assert "" + s == s;
  }

  lemma NumberDenotes(fp: Doubles, s: string, t: string, rest: string)
    requires TokenOk(fp, t) && s == t + rest
    ensures EndsAt(t, rest) ==> Denotes(fp, s, "", Number(t), Closed, TokenValue(t), rest)
  {
    hide TokenOk, EndsAt, TokenValue;
    assert "" + s == s;
  }

  lemma WordDenotes(fp: Doubles, s: string) returns (n: Node)
    requires s != "" && (if s[0] == 'n' then ReadNull(s).Ok? else ReadBoolean(s).Ok?)
    ensures s[0] == 'n' ==> Denotes(fp, s, "", n, Closed, ReadNull(s).value, ReadNull(s).rest)
    ensures s[0] != 'n' ==> Denotes(fp, s, "", n, Closed, ReadBoolean(s).value, ReadBoolean(s).rest)
  {
    if s[0] == 'n' {
      n := NullWord;
      assert s == "null" + s[4..];
    } else {
      var r := ReadBoolean(s);
      n := BooleanWord(r.value.flag);
      assert s == (if r.value.flag then "true" else "false") + r.rest;
    }
    assert "" + s == s;
  }

  lemma {:induction false} ArrayIsSyntax(fp: Doubles, s: string) returns (n: Node, shape: Shape)
    requires s != "" && s[0] == '[' && ReadArray(fp, s).Ok?
    ensures n.List? && Denotes(fp, s, "", n, shape, ReadArray(fp, s).value, ReadArray(fp, s).rest)
    decreases |s|, 1
  {
    hide *;
    var gap := Skipped(s[1..]);
    var t := SkipSpace(s[1..]);
    ArrayTurn(fp, s, t);
    if t != "" && t[0] == ']' {
      n, shape := List(gap, []), Closed;
      EmptyListDenotes(fp, s, gap, t);
    } else if t == "" {
      n, shape := List(gap, []), Open;
      EmptyListDenotes(fp, s, gap, t);
    } else {
      var items;
      items, shape := ElementsAreSyntax(fp, t, []);
      items := WithGap(fp, gap, items, t, if shape == Closed then [']'] + ReadArray(fp, s).rest else [',']);
      n := List("", items);
      ListDenotes(fp, s, items, shape, gap + t, ReadArray(fp, s).value, ReadArray(fp, s).rest);
    }
  }

  lemma ArrayTurn(fp: Doubles, s: string, t: string)
    requires s != "" && ReadArray(fp, s).Ok? && t == SkipSpace(s[1..])
    ensures |t| < |s|
    ensures ReadArray(fp, s) == if t != "" && t[0] == ']' then Ok(Array([]), t[1..])
                            else if t == "" then Ok(Array([]), "") else ReadElements(fp, t, [])
  {
    hide ReadValue;
  }

  lemma EmptyListDenotes(fp: Doubles, s: string, gap: string, t: string)
    requires s != "" && s[0] == '[' && s[1..] == gap + t && AllSpace(gap)
    ensures t == "" ==> Denotes(fp, s, "", List(gap, []), Open, Array([]), "")
    ensures t != "" && t[0] == ']' ==> Denotes(fp, s, "", List(gap, []), Closed, Array([]), t[1..])
  {
    assert s == ['['] + (gap + t);
    if t != "" && t[0] == ']' {
      assert t == [']'] + t[1..];
      assert "" + s == s;
    } else if t == "" {
      assert gap + t == gap;
    }
  }

  lemma ListDenotes(fp: Doubles, s: string, items: seq<Item>, shape: Shape, text: string, v: Value, rest: string)
    requires s != "" && s[0] == '[' && s[1..] == text && items != [] && ItemsOk(fp, items)
    requires v == Array([] + ItemMeanings(items))
    requires text == EmitItems(items, if shape == Closed then [']'] + rest else [','])
    requires shape == Open ==> rest == ""
    ensures Denotes(fp, s, "", List("", items), shape, v, rest)
  {
    hide EmitItems, ItemMeanings, ItemsOk;
    assert s == ['['] + text && "" + s == s;
    assert [] + ItemMeanings(items) == ItemMeanings(items);
  }

  lemma NoMoreElements(fp: Doubles, acc: seq<Value>)
    ensures ReadElements(fp, "", acc) == Ok(Array(acc), "")
  {
  }

  /** White space in front of a list belongs to its first item. */
  lemma WithGap(fp: Doubles, gap: string, items: seq<Item>, t: string, close: string) returns (items': seq<Item>)
    requires AllSpace(gap) && items != [] && ItemsOk(fp, items) && t == EmitItems(items, close)
    ensures items' != [] && ItemsOk(fp, items') && gap + t == EmitItems(items', close)
    ensures ItemMeanings(items') == ItemMeanings(items)
  {
    hide Emit, Meaning, NodeOk;
    var first := items[0].(before := gap + items[0].before);
    items' := [first] + items[1..];
    assert items'[1..] == items[1..];
    var more := if |items| == 1 then close else [','] + EmitItems(items[1..], close);
    assert gap + EmitItem(items[0], more) == EmitItem(first, more);
  }

  lemma {:induction false} ElementsAreSyntax(fp: Doubles, s: string, acc: seq<Value>) returns (items: seq<Item>, shape: Shape)
    requires s != "" && ReadElements(fp, s, acc).Ok?
    ensures items != [] && ItemsOk(fp, items)
    ensures ReadElements(fp, s, acc).value == Array(acc + ItemMeanings(items))
    ensures shape == Closed ==> s == EmitItems(items, [']'] + ReadElements(fp, s, acc).rest)
    ensures shape == Open ==> ReadElements(fp, s, acc).rest == "" && s == EmitItems(items, [','])
    decreases |s|, 4
  {
    hide *;
    ElementsTurn(fp, s, acc);
    var v := ReadValue(fp, SkipSpace(s)).value;
    var next := SkipSpace(ReadValue(fp, SkipSpace(s)).rest);
    var acc' := acc + [v];
    var item := ItemIsSyntax(fp, s, next);
    if next[0] == ']' {
      items, shape := [item], Closed;
      OneItem(fp, item, [']'] + next[1..]);
    } else if next[1..] == "" {
      items, shape := [item], Open;
      NoMoreElements(fp, acc');
      assert next == [','];
      OneItem(fp, item, next);
    } else {
      var tail;
      tail, shape := ElementsAreSyntax(fp, next[1..], acc');
      items := [item] + tail;
      MoreItems(fp, item, tail, if shape == Closed then [']'] + ReadElements(fp, s, acc).rest else [',']);
      assert acc' + ItemMeanings(tail) == acc + ([v] + ItemMeanings(tail));
    }
  }

  /** An element that was read, with the white space around it, is an item. */
  lemma {:induction false} ItemIsSyntax(fp: Doubles, s: string, next: string) returns (item: Item)
    requires s != "" && ReadValue(fp, SkipSpace(s)).Ok? && next == SkipSpace(ReadValue(fp, SkipSpace(s)).rest) && next != ""
    ensures ItemOk(fp, item) && Meaning(item.node) == ReadValue(fp, SkipSpace(s)).value && s == EmitItem(item, next)
    decreases |s|, 3
  {
    hide *;
    var outer := Skipped(s);
    var text := SkipSpace(s);
    var before, n, shape := ValueIsSyntax(fp, text);
    var v, after := ReadValue(fp, text).value, ReadValue(fp, text).rest;
    OpenLeavesNothing(fp, text, before, n, shape, v, after);
    ClosedMeans(fp, text, before, n, v, after);
    var gap := Skipped(after);
    item := Item(outer + before, n, gap);
    SpacesJoin(outer, before);
    ItemOf(fp, item);
    EmitItemIs(outer, before, n, gap, next, s, text, after);
  }

  lemma ItemOf(fp: Doubles, item: Item)
    requires AllSpace(item.before) && AllSpace(item.after) && NodeOk(fp, item.node)
    ensures ItemOk(fp, item)
  {
  }

  /** What an accepted turn of the element loop looked like. */
  lemma ElementsTurn(fp: Doubles, s: string, acc: seq<Value>)
    requires s != "" && ReadElements(fp, s, acc).Ok?
    ensures ReadValue(fp, SkipSpace(s)).Ok?
    ensures var v := ReadValue(fp, SkipSpace(s)).value;
            var next := SkipSpace(ReadValue(fp, SkipSpace(s)).rest);
            && next != "" && |next| <= |s| && (next[0] == ',' || next[0] == ']') && next == [next[0]] + next[1..]
            && ReadElements(fp, s, acc) == if next[0] == ',' then ReadElements(fp, next[1..], acc + [v])
                                       else Ok(Array(acc + [v]), next[1..])
  {
    hide ReadValue;
  }

  /** Something follows an element, so it was closed. */
  lemma OpenLeavesNothing(fp: Doubles, s: string, before: string, n: Node, shape: Shape, v: Value, rest: string)
    requires Denotes(fp, s, before, n, shape, v, rest) && SkipSpace(rest) != ""
    ensures shape == Closed
  {
    hide Emit, EmitOpen, Meaning, NodeOk;
  }

  lemma EmitItemIs(outer: string, before: string, n: Node, gap: string, next: string, s: string, t: string, after: string)
    requires s == outer + t && t == before + Emit(n, after) && after == gap + next
    ensures s == EmitItem(Item(outer + before, n, gap), next)
  {
    hide Emit;
    assert outer + (before + Emit(n, after)) == outer + before + Emit(n, after);
  }

  lemma OneItem(fp: Doubles, item: Item, close: string)
    requires ItemOk(fp, item)
    ensures ItemsOk(fp, [item]) && EmitItems([item], close) == EmitItem(item, close)
    ensures ItemMeanings([item]) == [Meaning(item.node)]
  {
    hide ItemOk, EmitItem, Meaning;
    assert [item][1..] == [];
  }

  lemma MoreItems(fp: Doubles, item: Item, tail: seq<Item>, close: string)
    requires ItemOk(fp, item) && tail != [] && ItemsOk(fp, tail)
    ensures var items := [item] + tail;
            && ItemsOk(fp, items) && EmitItems(items, close) == EmitItem(item, [','] + EmitItems(tail, close))
            && ItemMeanings(items) == [Meaning(item.node)] + ItemMeanings(tail)
  {
    hide ItemOk, EmitItem, Meaning;
    assert ([item] + tail)[1..] == tail;
  }

  lemma {:induction false} ObjectIsSyntax(fp: Doubles, s: string) returns (n: Node, shape: Shape)
    requires s != "" && s[0] == '{' && ReadObject(fp, s).Ok?
    ensures n.Record? && Denotes(fp, s, "", n, shape, ReadObject(fp, s).value, ReadObject(fp, s).rest)
    decreases |s|, 1
  {
    hide *;
    var gap := Skipped(s[1..]);
    var t := SkipSpace(s[1..]);
    ObjectTurn(fp, s, t);
    if t != "" && t[0] == '}' {
      n, shape := Record(gap, []), Closed;
      EmptyRecordDenotes(fp, s, gap, t);
    } else if t == "" {
      n, shape := Record(gap, []), Open;
      EmptyRecordDenotes(fp, s, gap, t);
    } else {
      var entries;
      entries, shape := MembersAreSyntax(fp, t, []);
      entries := WithGapBefore(fp, gap, entries, t, if shape == Closed then ['}'] + ReadObject(fp, s).rest else [',']);
      n := Record("", entries);
      RecordDenotes(fp, s, entries, shape, gap + t, ReadObject(fp, s).value, ReadObject(fp, s).rest);
    }
  }

  lemma ObjectTurn(fp: Doubles, s: string, t: string)
    requires s != "" && ReadObject(fp, s).Ok? && t == SkipSpace(s[1..])
    ensures |t| < |s|
    ensures ReadObject(fp, s) == if t != "" && t[0] == '}' then Ok(Object([]), t[1..])
                             else if t == "" then Ok(Object([]), "") else ReadMembers(fp, t, [])
  {
    hide ReadMember;
  }

  lemma EmptyRecordDenotes(fp: Doubles, s: string, gap: string, t: string)
    requires s != "" && s[0] == '{' && s[1..] == gap + t && AllSpace(gap)
    ensures t == "" ==> Denotes(fp, s, "", Record(gap, []), Open, Object([]), "")
    ensures t != "" && t[0] == '}' ==> Denotes(fp, s, "", Record(gap, []), Closed, Object([]), t[1..])
  {
    assert s == ['{'] + (gap + t);
    if t != "" && t[0] == '}' {
      assert t == ['}'] + t[1..];
      assert "" + s == s;
    } else if t == "" {
      assert gap + t == gap;
    }
  }

  lemma RecordDenotes(fp: Doubles, s: string, entries: seq<Entry>, shape: Shape, text: string, v: Value, rest: string)
    requires s != "" && s[0] == '{' && s[1..] == text && entries != [] && EntriesOk(fp, entries)
    requires v == Object(EntryMeanings(entries, []))
    requires text == EmitEntries(entries, if shape == Closed then ['}'] + rest else [','])
    requires shape == Open ==> rest == ""
    ensures Denotes(fp, s, "", Record("", entries), shape, v, rest)
  {
    hide EmitEntries, EntryMeanings, EntriesOk;
    assert s == ['{'] + text && "" + s == s;
  }

  /** White space in front of the members belongs to the first of them. */
  lemma WithGapBefore(fp: Doubles, gap: string, entries: seq<Entry>, t: string, close: string) returns (entries': seq<Entry>)
    requires AllSpace(gap) && entries != [] && EntriesOk(fp, entries) && t == EmitEntries(entries, close)
    ensures entries' != [] && EntriesOk(fp, entries') && gap + t == EmitEntries(entries', close)
    ensures EntryMeanings(entries', []) == EntryMeanings(entries, [])
  {
    hide Emit, Meaning, NodeOk, EmitString, PiecesOk, Spelled;
    var first := entries[0].(before := gap + entries[0].before);
    entries' := [first] + entries[1..];
    assert entries'[1..] == entries[1..];
    var more := if |entries| == 1 then close else [','] + EmitEntries(entries[1..], close);
    assert gap + EmitEntry(entries[0], more) == EmitEntry(first, more);
  }

  lemma {:induction false} MembersAreSyntax(fp: Doubles, s: string, acc: seq<Member>) returns (entries: seq<Entry>, shape: Shape)
    requires s != "" && ReadMembers(fp, s, acc).Ok?
    ensures entries != [] && EntriesOk(fp, entries)
    ensures ReadMembers(fp, s, acc).value == Object(EntryMeanings(entries, acc))
    ensures shape == Closed ==> s == EmitEntries(entries, ['}'] + ReadMembers(fp, s, acc).rest)
    ensures shape == Open ==> ReadMembers(fp, s, acc).rest == "" && s == EmitEntries(entries, [','])
    decreases |s|, 4
  {
    hide *;
    MembersTurn(fp, s, acc);
    var m := ReadMember(fp, s).value;
    var next := SkipSpace(ReadMember(fp, s).rest);
    var acc' := SetMember(acc, m.key, m.value);
    var e := EntryIsSyntax(fp, s, next);
    if next[0] == '}' {
      entries, shape := [e], Closed;
      OneEntry(fp, e, acc, ['}'] + next[1..]);
    } else if next[1..] == "" {
      entries, shape := [e], Open;
      NoMoreMembers(fp, acc');
      assert next == [','];
      OneEntry(fp, e, acc, next);
    } else {
      var tail;
      tail, shape := MembersAreSyntax(fp, next[1..], acc');
      entries := [e] + tail;
      MoreEntries(fp, e, tail, acc, if shape == Closed then ['}'] + ReadMembers(fp, s, acc).rest else [',']);
    }
  }

  lemma NoMoreMembers(fp: Doubles, acc: seq<Member>)
    ensures ReadMembers(fp, "", acc) == Ok(Object(acc), "")
  {
  }

  /** What an accepted turn of the member loop looked like. */
  lemma MembersTurn(fp: Doubles, s: string, acc: seq<Member>)
    requires s != "" && ReadMembers(fp, s, acc).Ok?
    ensures ReadMember(fp, s).Ok?
    ensures var m := ReadMember(fp, s).value;
            var next := SkipSpace(ReadMember(fp, s).rest);
            && next != "" && |next| <= |s| && (next[0] == ',' || next[0] == '}') && next == [next[0]] + next[1..]
            && ReadMembers(fp, s, acc) == if next[0] == ',' then ReadMembers(fp, next[1..], SetMember(acc, m.key, m.value))
                                      else Ok(Object(SetMember(acc, m.key, m.value)), next[1..])
  {
    hide ReadMember;
  }

  /** A key, a colon and a value that were read are an entry. */
  lemma {:induction false} EntryIsSyntax(fp: Doubles, s: string, next: string) returns (e: Entry)
    requires s != "" && ReadMember(fp, s).Ok? && next == SkipSpace(ReadMember(fp, s).rest) && next != ""
    ensures EntryOk(fp, e) && EntryMeaning(e) == ReadMember(fp, s).value && s == EmitEntry(e, next)
    decreases |s|, 3
  {
    hide *;
    MemberTurn(fp, s);
    var before := Skipped(s);
    var quoted := SkipSpace(s);
    var key := StringIsSyntax(quoted);
    var afterKey := ReadString(quoted).rest;
    var beforeColon := Skipped(afterKey);
    var colon := SkipSpace(afterKey);
    var value := colon[1..];
    var beforeValue := Skipped(value);
    var text := SkipSpace(value);
    var inner, n, shape := ValueIsSyntax(fp, text);
    var v, after := ReadValue(fp, text).value, ReadValue(fp, text).rest;
    OpenLeavesNothing(fp, text, inner, n, shape, v, after);
    ClosedMeans(fp, text, inner, n, v, after);
    var gap := Skipped(after);
    e := Entry(before, key, beforeColon, beforeValue + inner, n, gap);
    SpacesJoin(beforeValue, inner);
    EntryOf(fp, e, Member(Spelled(key), v));
    EmitEntryIs(e, beforeValue, inner, next, s);
  }

  lemma MemberTurn(fp: Doubles, s: string)
    requires ReadMember(fp, s).Ok?
    ensures var q := ReadString(SkipSpace(s));
            && q.Ok?
            && var t := SkipSpace(q.rest);
            && t != "" && t[0] == ':' && t == [':'] + t[1..] && |SkipSpace(t[1..])| < |s|
            && var r := ReadValue(fp, SkipSpace(t[1..]));
            && r.Ok? && ReadMember(fp, s) == Ok(Member(q.value, r.value), r.rest)
  {
    hide ReadString, ReadValue;
  }

  lemma ClosedMeans(fp: Doubles, s: string, before: string, n: Node, v: Value, rest: string)
    requires Denotes(fp, s, before, n, Closed, v, rest)
    ensures AllSpace(before) && NodeOk(fp, n) && Meaning(n) == v && s == before + Emit(n, rest)
  {
    hide Emit, NodeOk, Meaning, AllSpace, MayFollow;
  }

  lemma EntryOf(fp: Doubles, e: Entry, m: Member)
    requires AllSpace(e.before) && PiecesOk(e.key) && AllSpace(e.beforeColon) && NodeOk(fp, e.node) && AllSpace(e.after)
    requires AllSpace(e.afterColon) && m == Member(Spelled(e.key), Meaning(e.node))
    ensures EntryOk(fp, e) && EntryMeaning(e) == m
  {
    hide AllSpace, PiecesOk, NodeOk, Meaning, Spelled;
  }

  lemma EmitEntryIs(e: Entry, beforeValue: string, inner: string, next: string, s: string)
    requires e.afterColon == beforeValue + inner
    requires s == e.before + EmitString(e.key, e.beforeColon + ([':'] + (beforeValue + (inner + Emit(e.node, e.after + next)))))
    ensures s == EmitEntry(e, next)
  {
    hide Emit, EmitString;
    assert beforeValue + (inner + Emit(e.node, e.after + next)) == e.afterColon + Emit(e.node, e.after + next);
  }

  lemma OneEntry(fp: Doubles, e: Entry, acc: seq<Member>, close: string)
    requires EntryOk(fp, e)
    ensures EntriesOk(fp, [e]) && EmitEntries([e], close) == EmitEntry(e, close)
    ensures var m := EntryMeaning(e); EntryMeanings([e], acc) == SetMember(acc, m.key, m.value)
  {
    hide EntryOk, EmitEntry, EntryMeaning;
    assert [e][1..] == [];
  }

  lemma MoreEntries(fp: Doubles, e: Entry, tail: seq<Entry>, acc: seq<Member>, close: string)
    requires EntryOk(fp, e) && tail != [] && EntriesOk(fp, tail)
    ensures var entries := [e] + tail; var m := EntryMeaning(e);
            && EntriesOk(fp, entries) && EmitEntries(entries, close) == EmitEntry(e, [','] + EmitEntries(tail, close))
            && EntryMeanings(entries, acc) == EntryMeanings(tail, SetMember(acc, m.key, m.value))
  {
    hide EntryOk, EmitEntry, EntryMeaning;
    assert ([e] + tail)[1..] == tail;
  }

  // ---------------------------------------------------------------- unclosed texts are accepted

  lemma {:induction false} ReadOpenItems(fp: Doubles, items: seq<Item>, s: string, acc: seq<Value>)
    requires items != [] && ItemsOk(fp, items)
    requires s != "" && SkipSpace(s) == SkipSpace(EmitItems(items, [',']))
    ensures ReadElements(fp, s, acc) == Ok(Array(acc + ItemMeanings(items)), "")
    decreases items
  {
    hide *;
    var item := items[0];
    var next := if |items| == 1 then [','] else [','] + EmitItems(items[1..], [',']);
    UnfoldItems(items, [',']);
    UnfoldItemsOk(fp, items);
    ItemGap(fp, item, next);
    ReadItem(fp, item, s, next);
    var v := Meaning(item.node);
    ElementsStep(fp, s, acc, v, item.after + next, next);
    if |items| == 1 {
      NoMoreElements(fp, acc + [v]);
      assert next[1..] == "" && items[1..] == [];
      assert [v] + ItemMeanings(items[1..]) == [v];
    } else {
      assert next[1..] == EmitItems(items[1..], [',']);
      ItemsHead(fp, items[1..], [',']);
      SkipSpaceNothing();
      ReadOpenItems(fp, items[1..], next[1..], acc + [v]);
      assert acc + [v] + ItemMeanings(items[1..]) == acc + ([v] + ItemMeanings(items[1..]));
    }
  }

  lemma SkipSpaceNothing()
    ensures SkipSpace("") == ""
  {
  }

  lemma {:induction false} ReadOpenEntries(fp: Doubles, entries: seq<Entry>, s: string, acc: seq<Member>)
    requires entries != [] && EntriesOk(fp, entries)
    requires s != "" && SkipSpace(s) == SkipSpace(EmitEntries(entries, [',']))
    ensures ReadMembers(fp, s, acc) == Ok(Object(EntryMeanings(entries, acc)), "")
    decreases entries
  {
    hide ReadMembers, ReadMember, EntryMeaning, EntryOk, EmitEntry, SetMember;
    var e := entries[0];
    var next := if |entries| == 1 then [','] else [','] + EmitEntries(entries[1..], [',']);
    ReadEntry(fp, e, s, next);
    EntryGap(fp, e, next);
    var m := EntryMeaning(e);
    var acc' := SetMember(acc, m.key, m.value);
    MembersStep(fp, s, acc, m, e.after + next, next);
    if |entries| == 1 {
      NoMoreMembers(fp, acc');
      assert next[1..] == "" && entries[1..] == [];
    } else {
      assert next[1..] == EmitEntries(entries[1..], [',']);
      EntriesHead(fp, entries[1..], [',']);
      ReadOpenEntries(fp, entries[1..], next[1..], acc');
    }
  }

  lemma EntryGap(fp: Doubles, e: Entry, next: string)
    requires EntryOk(fp, e) && next != "" && !IsSpace(next[0])
    ensures SkipSpace(e.after + next) == next
  {
    SkipSpaceOver(e.after, next);
  }

  lemma ReadOpen(fp: Doubles, n: Node, before: string)
    requires NodeOk(fp, n) && AllSpace(before) && (n.List? || n.Record?)
    ensures ReadValue(fp, before + EmitOpen(n)) == Ok(Meaning(n), "")
  {
    hide ReadElements, ReadMembers, EmitItems, EmitEntries, ItemsOk, EntriesOk, SkipSpace, ReadValue;
    var s := EmitOpen(n);
    SkipSpaceOver(before, s);
    SkipSpaceStops(s);
    Dispatch(fp, before + s, s);
    match n
    case List(gap, items) =>
      if items == [] {
        NoMoreElements(fp, []);
        SkipsAll(gap);
        assert s[1..] == gap;
      } else {
        assert s[1..] == EmitItems(items, [',']);
        ItemsHead(fp, items, [',']);
        SkipSpaceStops(SkipSpace(s[1..]));
        ReadOpenItems(fp, items, SkipSpace(s[1..]), []);
        assert [] + ItemMeanings(items) == ItemMeanings(items);
      }
    case Record(gap, entries) =>
      if entries == [] {
        NoMoreMembers(fp, []);
        SkipsAll(gap);
        assert s[1..] == gap;
      } else {
        assert s[1..] == EmitEntries(entries, [',']);
        EntriesHead(fp, entries, [',']);
        SkipSpaceStops(SkipSpace(s[1..]));
        ReadOpenEntries(fp, entries, SkipSpace(s[1..]), []);
      }
  }

  lemma SkipSpaceStops(s: string)
    requires s != "" && !IsSpace(s[0])
    ensures SkipSpace(s) == s
  {
  }

  lemma SkipsAll(gap: string)
    requires AllSpace(gap)
    ensures SkipSpace(gap) == ""
  {
    SkipSpaceOver(gap, "");
    assert gap + "" == gap;
  }

  // ---------------------------------------------------------------- exactly these texts

  /**
   `ParseValue` accepts a text with value `v` and leaves `rest` if and only if the text denotes
   `v`: it is white space and the syntax of `v` followed by `rest`, where `rest` cannot extend a
   number, or the input ends in an array or object that was broken off.
   */
  lemma AcceptanceIsExact(fp: Doubles, text: string, v: Value, rest: string)
    ensures ReadValue(fp, text) == Ok(v, rest) <==>
            exists before, n, shape :: Denotes(fp, text, before, n, shape, v, rest)
  {
    hide ReadValue, Emit, EmitOpen, NodeOk, Meaning, MayFollow, AllSpace;
    if ReadValue(fp, text) == Ok(v, rest) {
      var before, n, shape := ValueIsSyntax(fp, text);
    }
    forall before, n, shape | Denotes(fp, text, before, n, shape, v, rest)
      ensures ReadValue(fp, text) == Ok(v, rest)
    {
      if shape == Closed {
        ReadNode(fp, n, before, rest);
      } else {
        ReadOpen(fp, n, before);
      }
    }
  }

  /** The same for `Parse`: it accepts such a text whatever follows, so not every accepted text is JSON. */
  lemma ParseIsExact(fp: Doubles, text: string, v: Value)
    ensures ReadText(fp, text).Ok? && ReadText(fp, text).value == v <==>
            exists before, n, shape, rest :: Denotes(fp, text, before, n, shape, v, rest)
  {
    hide ReadValue, Denotes;
    ReadValueSkips(fp, text);
    assert SkipSpace(text) == "" ==> ReadValue(fp, SkipSpace(text)).Fail? by {
      ReadNothing(fp);
    }
    if ReadText(fp, text).Ok? && ReadText(fp, text).value == v {
      var rest := ReadValue(fp, text).rest;
      AcceptanceIsExact(fp, text, v, rest);
      var before, n, shape :| Denotes(fp, text, before, n, shape, v, rest);
    }
    forall before, n, shape, rest | Denotes(fp, text, before, n, shape, v, rest)
      ensures ReadText(fp, text).Ok? && ReadText(fp, text).value == v
    {
      AcceptanceIsExact(fp, text, v, rest);
    }
  }

  lemma ReadNothing(fp: Doubles)
    ensures ReadValue(fp, "").Fail?
  {
  }

  /** For example the single character `[` is accepted as the empty array. */
  lemma OpenBracketAccepted(fp: Doubles)
    ensures ReadValue(fp, "[") == Ok(Array([]), "")
  {
    var n := List("", []);
    assert "" + EmitOpen(n) == "[" && Meaning(n) == Array([]);
    hide ReadValue;
    ReadOpen(fp, n, "");
  }

  /** A float token the library does not convert is not accepted: the parser throws, as on `1e999`. */
  lemma UnconvertedThrows(fp: Doubles, t: string)
    requires t != "" && (t[0] == '-' || IsDigit(t[0])) && NumberEnd(t) == (|t|, true) && !fp.converts(t)
    ensures ReadText(fp, t) == Throw
  {
    hide NumberEnd, HasMantissaDigit, ReadValue;
    SkipSpaceStops(t);
    Dispatch(fp, t, t);
    assert t[..|t|] == t;
  }
}
