/**
 Exactly on which texts the parser throws.

 A text on which it throws runs into a number or a `\u` escape the library does not convert, inside
 arrays and objects whose earlier elements and members are complete. `Broken` is the syntax of such a
 beginning; what follows it does not matter.
 */
module JsonThrows {
  import opened Text
  import opened Json
  import opened JsonReader
  import opened JsonSyntax
  import opened JsonAcceptance

  datatype Broken =
    | BadNumber(token: string)
    | BadString(pieces: seq<Piece>, hex: string)
    | InList(items: seq<Item>, before: string, inner: Broken)
    | InKey(entries: seq<Entry>, before: string, pieces: seq<Piece>, hex: string)
    | InValue(entries: seq<Entry>, before: string, key: seq<Piece>, beforeColon: string, afterColon: string, inner: Broken)

  /** A token the scanner finds but the library does not convert. */
  predicate BadToken(fp: Doubles, t: string) {
    && t != "" && (t[0] == '-' || IsDigit(t[0])) && NumberEnd(t) == (|t|, !IsIntegerToken(t))
    && if IsIntegerToken(t) then Stoll(t).None? else !(HasMantissaDigit(t) && fp.converts(t))
  }

  predicate BadHex(hex: string) {
    |hex| == 4 && ReadHex(hex).None?
  }

  predicate BrokenOk(fp: Doubles, b: Broken, rest: string)
    decreases b
  {
    match b
    case BadNumber(t) => BadToken(fp, t) && EndsAt(t, rest)
    case BadString(ps, hex) => PiecesOk(ps) && BadHex(hex)
    case InList(items, before, inner) => ItemsOk(fp, items) && AllSpace(before) && BrokenOk(fp, inner, rest)
    case InKey(entries, before, ps, hex) => EntriesOk(fp, entries) && AllSpace(before) && PiecesOk(ps) && BadHex(hex)
    case InValue(entries, before, key, beforeColon, afterColon, inner) =>
      && EntriesOk(fp, entries) && AllSpace(before) && PiecesOk(key) && AllSpace(beforeColon) && AllSpace(afterColon)
      && BrokenOk(fp, inner, rest)
  }

  /** Complete elements, each with its comma, and what comes after them. */
  function LeadItems(items: seq<Item>, tail: string): string {
    if items == [] then tail else EmitItems(items, [','] + tail)
  }

  function LeadEntries(entries: seq<Entry>, tail: string): string {
    if entries == [] then tail else EmitEntries(entries, [','] + tail)
  }

  function EmitBadString(ps: seq<Piece>, hex: string, rest: string): string {
    ['"'] + EmitPieces(ps, ['\\', 'u'] + hex + rest)
  }

  function EmitBroken(b: Broken, rest: string): string
    decreases b
  {
    match b
    case BadNumber(t) => t + rest
    case BadString(ps, hex) => EmitBadString(ps, hex, rest)
    case InList(items, before, inner) => ['['] + LeadItems(items, before + EmitBroken(inner, rest))
    case InKey(entries, before, ps, hex) => ['{'] + LeadEntries(entries, before + EmitBadString(ps, hex, rest))
    case InValue(entries, before, key, beforeColon, afterColon, inner) =>
      ['{'] + LeadEntries(entries,
        before + EmitString(key, beforeColon + ([':'] + (afterColon + EmitBroken(inner, rest)))))
  }

  // ---------------------------------------------------------------- the parser throws on them

  lemma {:induction false} BadPieces(ps: seq<Piece>, hex: string, rest: string, acc: string)
    requires PiecesOk(ps) && BadHex(hex)
    ensures ReadChars(EmitPieces(ps, ['\\', 'u'] + hex + rest), acc) == Throw
  {
    hide ReadChars, PieceText, PieceValue, PieceOk, BadHex;
    var end := ['\\', 'u'] + hex + rest;
    if ps == [] {
      BadEscape(hex, rest, acc);
    } else {
      PiecesEnd(ps[1..], end);
      ReadPiece(ps[0], EmitPieces(ps[1..], end), acc);
      BadPieces(ps[1..], hex, rest, acc + PieceValue(ps[0]));
    }
  }

  lemma {:induction false} PiecesEnd(ps: seq<Piece>, end: string)
    requires end != ""
    ensures EmitPieces(ps, end) != ""
  {
    if ps != [] {
      PiecesEnd(ps[1..], end);
    }
  }

  lemma BadEscape(hex: string, rest: string, acc: string)
    requires BadHex(hex)
    ensures ReadChars(['\\', 'u'] + hex + rest, acc) == Throw
  {
    hide ReadHex, CodeBytes;
    assert (['\\', 'u'] + hex + rest)[2..6] == hex;
  }

  lemma BadStringThrows(ps: seq<Piece>, hex: string, rest: string)
    requires PiecesOk(ps) && BadHex(hex)
    ensures ReadString(EmitBadString(ps, hex, rest)) == Throw
  {
    hide PiecesOk, BadHex, ReadChars, EmitPieces;
    BadPieces(ps, hex, rest, "");
    assert EmitBadString(ps, hex, rest)[1..] == EmitPieces(ps, ['\\', 'u'] + hex + rest);
  }

  lemma BadNumberThrows(fp: Doubles, t: string, rest: string)
    requires BadToken(fp, t) && EndsAt(t, rest)
    ensures ReadNumber(fp, t + rest) == Throw
  {
    hide HasMantissaDigit, NumberEnd, Stoll;
    var s := t + rest;
    assert s[..|t|] == t;
    IntegerTokenEnd(s);
  }

  lemma BrokenHead(fp: Doubles, b: Broken, rest: string)
    requires BrokenOk(fp, b, rest)
    ensures var s := EmitBroken(b, rest);
            s != "" && !IsSpace(s[0]) && s[0] != ']' && s[0] != '}'
            && (b.BadNumber? ==> s[0] == '-' || IsDigit(s[0])) && (b.BadString? ==> s[0] == '"')
            && (b.InList? ==> s[0] == '[') && (b.InKey? || b.InValue? ==> s[0] == '{')
  {
    hide EndsAt, IsIntegerToken, NumberEnd, Stoll, HasMantissaDigit, ItemsOk, EntriesOk, PiecesOk;
  }

  /** `ParseValue` throws where the reader it chose does. */
  lemma DispatchThrows(fp: Doubles, text: string, s: string)
    requires SkipSpace(text) == s && s != ""
    ensures s[0] == '"' && ReadString(s) == Throw ==> ReadValue(fp, text) == Throw
  {
    hide ReadString;
  }

  lemma {:induction false} BrokenThrows(fp: Doubles, b: Broken, before: string, rest: string)
    requires BrokenOk(fp, b, rest) && AllSpace(before)
    ensures ReadValue(fp, before + EmitBroken(b, rest)) == Throw
    decreases b, 2
  {
    hide ReadValue, SkipSpace, ReadNumber, ReadString, ReadArray, ReadObject, BadToken, EndsAt, PiecesOk, BadHex, ItemsOk,
      EntriesOk, LeadItems, LeadEntries, EmitBadString, EmitString, AllSpace, ReadNull, ReadBoolean, IsDigit, IsSpace;
    var s := EmitBroken(b, rest);
    SkipSpaceOver(before, s);
    BrokenHead(fp, b, rest);
    SkipSpaceStops(s);
    Dispatch(fp, before + s, s);
    DispatchThrows(fp, before + s, s);
    match b
    case BadNumber(t) => BadNumberThrows(fp, t, rest);
    case BadString(ps, hex) => BadStringThrows(ps, hex, rest);
    case InList(_, _, _) => BrokenListThrows(fp, b, rest);
    case InKey(_, _, _, _) => BrokenRecordThrows(fp, b, rest);
    case InValue(_, _, _, _, _, _) => BrokenRecordThrows(fp, b, rest);
  }

  lemma {:induction false} BrokenListThrows(fp: Doubles, b: Broken, rest: string)
    requires b.InList? && BrokenOk(fp, b, rest)
    ensures ReadArray(fp, EmitBroken(b, rest)) == Throw
    decreases b, 1
  {
    hide ReadElements, ReadValue, SkipSpace, ItemsOk, LeadItems, AllSpace, BadToken;
    var inner := EmitBroken(b.inner, rest);
    var tail := b.before + inner;
    var s := EmitBroken(b, rest);
    assert s[1..] == LeadItems(b.items, tail);
    BrokenThrows(fp, b.inner, b.before, rest);
    BrokenHead(fp, b.inner, rest);
    SkipSpaceOver(b.before, inner);
    SkipSpaceStops(inner);
    LeadItemsHead(fp, b.items, tail);
    var t := SkipSpace(s[1..]);
    SkipSpaceStops(t);
    LeadItemsThrow(fp, b.items, t, tail, []);
  }

  lemma LeadItemsHead(fp: Doubles, items: seq<Item>, tail: string)
    requires ItemsOk(fp, items) && SkipSpace(tail) != "" && SkipSpace(tail)[0] != ']'
    ensures var s := SkipSpace(LeadItems(items, tail)); s != "" && s[0] != ']' && !IsSpace(s[0])
  {
    hide EmitItems;
    if items != [] {
      ItemsHead(fp, items, [','] + tail);
    }
  }

  lemma LeadItemsStep(items: seq<Item>, tail: string)
    requires items != []
    ensures LeadItems(items, tail) == EmitItem(items[0], [','] + LeadItems(items[1..], tail))
  {
    hide EmitItem;
    if |items| == 1 {
      assert items[1..] == [];
    }
  }

  lemma {:induction false} LeadItemsThrow(fp: Doubles, items: seq<Item>, s: string, tail: string, acc: seq<Value>)
    requires ItemsOk(fp, items) && s != "" && SkipSpace(s) == SkipSpace(LeadItems(items, tail))
    requires SkipSpace(tail) != "" && SkipSpace(tail)[0] != ']' && ReadValue(fp, tail) == Throw
    ensures ReadElements(fp, s, acc) == Throw
    decreases items
  {
    hide *;
    if items == [] {
      NoLeadItems(tail);
      ReadValueSkips(fp, tail);
      ElementsThrowHere(fp, s, acc);
    } else {
      var item := items[0];
      var more := LeadItems(items[1..], tail);
      var next := [','] + more;
      LeadItemsStep(items, tail);
      UnfoldItemsOk(fp, items);
      ItemGap(fp, item, next);
      ReadItem(fp, item, s, next);
      ElementsStep(fp, s, acc, Meaning(item.node), item.after + next, next);
      assert next[1..] == more;
      LeadItemsHead(fp, items[1..], tail);
      SkipSpaceNothing();
      LeadItemsThrow(fp, items[1..], more, tail, acc + [Meaning(item.node)]);
    }
  }

  lemma NoLeadItems(tail: string)
    ensures LeadItems([], tail) == tail && LeadEntries([], tail) == tail
  {
  }

  lemma ElementsThrowHere(fp: Doubles, s: string, acc: seq<Value>)
    requires s != "" && ReadValue(fp, SkipSpace(s)) == Throw
    ensures ReadElements(fp, s, acc) == Throw
  {
  }

  lemma {:induction false} BrokenRecordThrows(fp: Doubles, b: Broken, rest: string)
    requires (b.InKey? || b.InValue?) && BrokenOk(fp, b, rest)
    ensures ReadObject(fp, EmitBroken(b, rest)) == Throw
    decreases b, 1
  {
    hide ReadMembers, ReadMember, ReadValue, ReadString, SkipSpace, EntriesOk, LeadEntries, AllSpace, BadToken, PiecesOk,
      BadHex, EmitString, EmitBadString;
    var s := EmitBroken(b, rest);
    var quoted := if b.InKey? then EmitBadString(b.pieces, b.hex, rest)
                  else EmitString(b.key, b.beforeColon + ([':'] + (b.afterColon + EmitBroken(b.inner, rest))));
    var tail := b.before + quoted;
    assert s[1..] == LeadEntries(b.entries, tail);
    QuoteHead(b, rest, quoted);
    SkipSpaceOver(b.before, quoted);
    SkipSpaceStops(quoted);
    if b.InKey? {
      BadStringThrows(b.pieces, b.hex, rest);
    } else {
      BrokenThrows(fp, b.inner, b.afterColon, rest);
      ReadSpelledString(b.key, b.beforeColon + ([':'] + (b.afterColon + EmitBroken(b.inner, rest))));
    }
    BrokenMember(fp, b, rest, tail);
    LeadEntriesHead(fp, b.entries, tail);
    var t := SkipSpace(s[1..]);
    SkipSpaceStops(t);
    LeadEntriesThrow(fp, b.entries, t, tail, []);
  }

  lemma QuoteHead(b: Broken, rest: string, quoted: string)
    requires b.InKey? ==> quoted == EmitBadString(b.pieces, b.hex, rest)
    requires b.InValue? ==>
               quoted == EmitString(b.key, b.beforeColon + ([':'] + (b.afterColon + EmitBroken(b.inner, rest))))
    requires b.InKey? || b.InValue?
    ensures quoted != "" && quoted[0] == '"'
  {
    hide EmitPieces, EmitBroken;
  }

  lemma BrokenMember(fp: Doubles, b: Broken, rest: string, tail: string)
    requires b.InKey? ==> ReadString(SkipSpace(tail)) == Throw
    requires b.InValue? ==>
               var value := b.afterColon + EmitBroken(b.inner, rest);
               && AllSpace(b.beforeColon) && ReadValue(fp, value) == Throw
               && ReadString(SkipSpace(tail)) == Ok(Spelled(b.key), b.beforeColon + ([':'] + value))
    requires b.InKey? || b.InValue?
    ensures ReadMember(fp, tail) == Throw
  {
    hide ReadString, ReadValue, Spelled, EmitBroken;
    if b.InValue? {
      var value := b.afterColon + EmitBroken(b.inner, rest);
      SkipSpaceOver(b.beforeColon, [':'] + value);
      assert ([':'] + value)[1..] == value;
      ReadValueSkips(fp, value);
    }
  }

  lemma LeadEntriesHead(fp: Doubles, entries: seq<Entry>, tail: string)
    requires EntriesOk(fp, entries) && SkipSpace(tail) != "" && SkipSpace(tail)[0] == '"'
    ensures var s := SkipSpace(LeadEntries(entries, tail)); s != "" && s[0] == '"'
  {
    hide EmitEntries;
    if entries != [] {
      EntriesHead(fp, entries, [','] + tail);
    }
  }

  lemma LeadEntriesStep(entries: seq<Entry>, tail: string)
    requires entries != []
    ensures LeadEntries(entries, tail) == EmitEntry(entries[0], [','] + LeadEntries(entries[1..], tail))
  {
    hide EmitEntry;
    if |entries| == 1 {
      assert entries[1..] == [];
    }
  }

  lemma ReadMemberSkips(fp: Doubles, s: string, t: string)
    requires SkipSpace(s) == SkipSpace(t)
    ensures ReadMember(fp, s) == ReadMember(fp, t)
  {
    hide ReadString, ReadValue;
  }

  lemma MembersThrowHere(fp: Doubles, s: string, acc: seq<Member>)
    requires s != "" && ReadMember(fp, s) == Throw
    ensures ReadMembers(fp, s, acc) == Throw
  {
  }

  lemma {:induction false} LeadEntriesThrow(fp: Doubles, entries: seq<Entry>, s: string, tail: string, acc: seq<Member>)
    requires EntriesOk(fp, entries) && s != "" && SkipSpace(s) == SkipSpace(LeadEntries(entries, tail))
    requires SkipSpace(tail) != "" && SkipSpace(tail)[0] == '"' && ReadMember(fp, tail) == Throw
    ensures ReadMembers(fp, s, acc) == Throw
    decreases entries
  {
    hide *;
    if entries == [] {
      NoLeadItems(tail);
      ReadMemberSkips(fp, s, tail);
      MembersThrowHere(fp, s, acc);
    } else {
      var e := entries[0];
      var more := LeadEntries(entries[1..], tail);
      var next := [','] + more;
      LeadEntriesStep(entries, tail);
      UnfoldEntries(fp, entries, acc);
      SeparatorHead(next);
      ReadEntry(fp, e, s, next);
      EntryGap(fp, e, next);
      var m := EntryMeaning(e);
      MembersStep(fp, s, acc, m, e.after + next, next);
      assert next[1..] == more;
      LeadEntriesHead(fp, entries[1..], tail);
      SkipSpaceNothing();
      LeadEntriesThrow(fp, entries[1..], more, tail, SetMember(acc, m.key, m.value));
    }
  }

  lemma SeparatorHead(next: string)
    requires next != "" && next[0] == ','
    ensures Separates(next) && !IsSpace(next[0])
  {
  }

  // ---------------------------------------------------------------- it throws on nothing else

  /** What a turn of the loop of `ParseString` looked like before the parser threw. */
  lemma CharsThrowTurn(s: string, acc: string)
    requires ReadChars(s, acc) == Throw
    ensures s != "" && s[0] != '"'
    ensures var p, n := FirstPiece(s).0, FirstPiece(s).1;
            || (n == 6 && |s| >= 6 && s[..2] == ['\\', 'u'] && BadHex(s[2..6]))
            || (0 < n <= |s| && PieceOk(p) && s[..n] == PieceText(p) && ReadChars(s[n..], acc + PieceValue(p)) == Throw)
  {
    hide CodeBytes, ReadHex;
    if s[0] == '\\' && ShortEscape(s[1]).None? {
      assert s[..6] == ['\\', 'u'] + s[2..6];
    }
  }

  lemma {:induction false} CharsThrow(s: string, acc: string) returns (ps: seq<Piece>, hex: string, rest: string)
    requires ReadChars(s, acc) == Throw
    ensures PiecesOk(ps) && BadHex(hex) && s == EmitPieces(ps, ['\\', 'u'] + hex + rest)
    decreases |s|
  {
    hide *;
    CharsThrowTurn(s, acc);
    var p, n := FirstPiece(s).0, FirstPiece(s).1;
    if n == 6 && |s| >= 6 && s[..2] == ['\\', 'u'] && BadHex(s[2..6]) {
      ps, hex, rest := [], s[2..6], s[6..];
      NoPieces(['\\', 'u'] + hex + rest);
      assert s == s[..2] + s[2..6] + s[6..];
    } else {
      var tail;
      tail, hex, rest := CharsThrow(s[n..], acc + PieceValue(p));
      ps := [p] + tail;
      OnePiece(p, tail, ['\\', 'u'] + hex + rest);
      assert s == s[..n] + s[n..];
    }
  }

  lemma StringThrows(s: string) returns (ps: seq<Piece>, hex: string, rest: string)
    requires ReadString(s) == Throw
    ensures PiecesOk(ps) && BadHex(hex) && s == EmitBadString(ps, hex, rest)
  {
    hide ReadChars, PiecesOk, EmitPieces, BadHex;
    ps, hex, rest := CharsThrow(s[1..], "");
    assert s == ['"'] + s[1..];
  }

  lemma NumberThrows(fp: Doubles, s: string)
    requires s != "" && (s[0] == '-' || IsDigit(s[0])) && ReadNumber(fp, s) == Throw
    ensures var n := NumberEnd(s).0; BadToken(fp, s[..n]) && EndsAt(s[..n], s[n..]) && s == s[..n] + s[n..]
  {
    hide HasMantissaDigit, Stoll, NumberEnd;
    var (n, isFloat) := NumberEnd(s);
    assert s == s[..n] + s[n..];
    TokenEnd(s);
  }

  /** The token cut out of its text is scanned as it was inside it. */
  lemma TokenEnd(s: string)
    ensures var n, isFloat := NumberEnd(s).0, NumberEnd(s).1;
            NumberEnd(s[..n]) == (n, isFloat) && (isFloat <==> !IsIntegerToken(s[..n]))
  {
    var n, isFloat := NumberEnd(s).0, NumberEnd(s).1;
    IntegerTokenEnd(s);
    hide NumberEnd;
    if isFloat {
      FloatTokenEnd(s);
    } else {
      IntegerTokenLength(s[..n]);
      IntegerTokenIsWhole(s[..n]);
    }
  }

  lemma IntegerTokenIsWhole(t: string)
    requires IntegerLength(t) == |t|
    ensures NumberEnd(t) == (|t|, false)
  {
  }

  /** The text runs into something the library does not convert. */
  ghost predicate Breaks(fp: Doubles, s: string, before: string, b: Broken, rest: string) {
    AllSpace(before) && BrokenOk(fp, b, rest) && s == before + EmitBroken(b, rest)
  }

  /** What a value on which the parser throws starts with, and which reader threw. */
  lemma ValueThrowTurn(fp: Doubles, text: string, s: string)
    requires ReadValue(fp, text) == Throw && s == SkipSpace(text)
    ensures s != "" && |s| <= |text|
    ensures s[0] == '-' || IsDigit(s[0]) || s[0] == '"' || s[0] == '[' || s[0] == '{'
    ensures s[0] == '-' || IsDigit(s[0]) ==> ReadNumber(fp, s) == Throw
    ensures s[0] == '"' ==> ReadString(s) == Throw
    ensures s[0] == '[' ==> ReadArray(fp, s) == Throw
    ensures s[0] == '{' ==> ReadObject(fp, s) == Throw
  {
    hide *;
    SomethingStarts(fp, text);
    WordsDoNotThrow(s);
    Dispatch(fp, text, s);
    StringDispatch(fp, text);
  }

  lemma SomethingStarts(fp: Doubles, text: string)
    requires ReadValue(fp, text) == Throw
    ensures var s := SkipSpace(text);
            && s != ""
            && (s[0] == 'n' || s[0] == 't' || s[0] == 'f' || s[0] == '-' || IsDigit(s[0]) || s[0] == '"' || s[0] == '[' || s[0] == '{')
  {
    hide SkipSpace, IsDigit, ReadNull, ReadBoolean, ReadNumber, ReadString, ReadArray, ReadObject;
  }

  lemma StringDispatch(fp: Doubles, text: string)
    requires ReadValue(fp, text) == Throw
    ensures var s := SkipSpace(text); s != "" && s[0] == '"' ==> ReadString(s) == Throw
  {
    hide SkipSpace, ReadString;
  }

  lemma WordsDoNotThrow(s: string)
    ensures ReadNull(s) != Throw && ReadBoolean(s) != Throw
  {
  }

  lemma {:induction false} ValueThrows(fp: Doubles, text: string) returns (before: string, b: Broken, rest: string)
    requires ReadValue(fp, text) == Throw
    ensures Breaks(fp, text, before, b, rest)
    decreases |text|, 2
  {
    hide *;
    before := Skipped(text);
    var s := SkipSpace(text);
    ValueThrowTurn(fp, text, s);
    if s[0] == '-' || IsDigit(s[0]) {
      NumberThrows(fp, s);
      b, rest := BadNumber(s[..NumberEnd(s).0]), s[NumberEnd(s).0..];
      BadNumberBreaks(fp, before, b.token, rest);
    } else if s[0] == '"' {
      var ps, hex;
      ps, hex, rest := StringThrows(s);
      b := BadString(ps, hex);
      BadStringBreaks(fp, before, ps, hex, rest);
    } else if s[0] == '[' {
      b, rest := ArrayThrows(fp, s);
      BrokenBreaks(fp, before, b, rest);
    } else {
      b, rest := ObjectThrows(fp, s);
      BrokenBreaks(fp, before, b, rest);
    }
  }

  lemma BadNumberBreaks(fp: Doubles, before: string, t: string, rest: string)
    requires AllSpace(before) && BadToken(fp, t) && EndsAt(t, rest)
    ensures Breaks(fp, before + (t + rest), before, BadNumber(t), rest)
  {
    hide AllSpace, BadToken, EndsAt;
  }

  lemma BadStringBreaks(fp: Doubles, before: string, ps: seq<Piece>, hex: string, rest: string)
    requires AllSpace(before) && PiecesOk(ps) && BadHex(hex)
    ensures Breaks(fp, before + EmitBadString(ps, hex, rest), before, BadString(ps, hex), rest)
  {
    hide AllSpace, PiecesOk, BadHex, EmitBadString;
  }

  lemma BrokenBreaks(fp: Doubles, before: string, b: Broken, rest: string)
    requires AllSpace(before) && BrokenOk(fp, b, rest)
    ensures Breaks(fp, before + EmitBroken(b, rest), before, b, rest)
  {
  }

  lemma BreaksMeans(fp: Doubles, s: string, before: string, b: Broken, rest: string)
    requires Breaks(fp, s, before, b, rest)
    ensures AllSpace(before) && BrokenOk(fp, b, rest) && s == before + EmitBroken(b, rest)
  {
  }

  // ---------------------------------------------------------------- inside arrays

  lemma ArrayThrowTurn(fp: Doubles, s: string, t: string)
    requires s != "" && ReadArray(fp, s) == Throw && t == SkipSpace(s[1..])
    ensures |t| < |s| && ReadElements(fp, t, []) == Throw
  {
    hide ReadElements;
  }

  lemma {:induction false} ArrayThrows(fp: Doubles, s: string) returns (b: Broken, rest: string)
    requires s != "" && s[0] == '[' && ReadArray(fp, s) == Throw
    ensures BrokenOk(fp, b, rest) && s == EmitBroken(b, rest)
    decreases |s|, 1
  {
    hide *;
    var gap := Skipped(s[1..]);
    var t := SkipSpace(s[1..]);
    ArrayThrowTurn(fp, s, t);
    var items, before, inner;
    items, before, inner, rest := ElementsThrow(fp, t, []);
    b := ListBreaks(fp, s, gap, t, items, before, inner, rest);
  }

  /** White space after the bracket belongs to what follows it. */
  lemma ListBreaks(fp: Doubles, s: string, gap: string, t: string, items: seq<Item>, before: string, inner: Broken, rest: string)
    returns (b: Broken)
    requires s != "" && s[0] == '[' && s[1..] == gap + t && AllSpace(gap)
    requires ItemsOk(fp, items) && AllSpace(before) && BrokenOk(fp, inner, rest)
    requires t == LeadItems(items, before + EmitBroken(inner, rest))
    ensures BrokenOk(fp, b, rest) && s == EmitBroken(b, rest)
  {
    hide *;
    assert s == ['['] + (gap + t);
    var tail := before + EmitBroken(inner, rest);
    if items == [] {
      NoLeadItems(tail);
      NoLeadItems(gap + tail);
      SpacesJoin(gap, before);
      assert gap + tail == (gap + before) + EmitBroken(inner, rest);
      b := InList([], gap + before, inner);
      InListIs(fp, [], gap + before, inner, rest);
    } else {
      var items' := GapBeforeItems(fp, gap, items, tail);
      b := InList(items', before, inner);
      InListIs(fp, items', before, inner, rest);
    }
  }

  lemma InListIs(fp: Doubles, items: seq<Item>, before: string, inner: Broken, rest: string)
    ensures var b := InList(items, before, inner);
            && (BrokenOk(fp, b, rest) <==> ItemsOk(fp, items) && AllSpace(before) && BrokenOk(fp, inner, rest))
            && EmitBroken(b, rest) == ['['] + LeadItems(items, before + EmitBroken(inner, rest))
  {
    hide ItemsOk, LeadItems, AllSpace;
  }

  lemma GapBeforeItems(fp: Doubles, gap: string, items: seq<Item>, tail: string) returns (items': seq<Item>)
    requires AllSpace(gap) && items != [] && ItemsOk(fp, items)
    ensures ItemsOk(fp, items') && gap + LeadItems(items, tail) == LeadItems(items', tail)
  {
    hide EmitItems, ItemsOk, AllSpace;
    items' := WithGap(fp, gap, items, EmitItems(items, [','] + tail), [','] + tail);
  }

  /** What a turn of the element loop looked like before the parser threw. */
  lemma ElementsThrowTurn(fp: Doubles, s: string, acc: seq<Value>)
    requires ReadElements(fp, s, acc) == Throw
    ensures s != "" && !ReadValue(fp, SkipSpace(s)).Fail?
    ensures ReadValue(fp, SkipSpace(s)).Ok? ==>
              var next := SkipSpace(ReadValue(fp, SkipSpace(s)).rest);
              && next != "" && |next| <= |s| && next[0] == ',' && next == [','] + next[1..]
              && ReadElements(fp, next[1..], acc + [ReadValue(fp, SkipSpace(s)).value]) == Throw
  {
    hide ReadValue;
  }

  lemma {:induction false} ElementsThrow(fp: Doubles, s: string, acc: seq<Value>)
    returns (items: seq<Item>, before: string, inner: Broken, rest: string)
    requires ReadElements(fp, s, acc) == Throw
    ensures ItemsOk(fp, items) && AllSpace(before) && BrokenOk(fp, inner, rest)
    ensures s == LeadItems(items, before + EmitBroken(inner, rest))
    decreases |s|, 4
  {
    hide *;
    ElementsThrowTurn(fp, s, acc);
    var text := SkipSpace(s);
    if ReadValue(fp, text) == Throw {
      var outer := Skipped(s);
      var b;
      b, inner, rest := ValueThrows(fp, text);
      BreaksMeans(fp, text, b, inner, rest);
      SpacesJoin(outer, b);
      items, before := [], outer + b;
      NoLeadItems(before + EmitBroken(inner, rest));
      NoItemsOk(fp);
      assert outer + (b + EmitBroken(inner, rest)) == before + EmitBroken(inner, rest);
    } else {
      var next := SkipSpace(ReadValue(fp, text).rest);
      var item := ItemIsSyntax(fp, s, next);
      var tail;
      tail, before, inner, rest := ElementsThrow(fp, next[1..], acc + [ReadValue(fp, text).value]);
      items := [item] + tail;
      assert items[1..] == tail;
      LeadItemsStep(items, before + EmitBroken(inner, rest));
      UnfoldItemsOk(fp, items);
    }
  }

  lemma NoItemsOk(fp: Doubles)
    ensures ItemsOk(fp, []) && EntriesOk(fp, [])
  {
  }

  // ---------------------------------------------------------------- inside objects

  lemma ObjectThrowTurn(fp: Doubles, s: string, t: string)
    requires s != "" && ReadObject(fp, s) == Throw && t == SkipSpace(s[1..])
    ensures |t| < |s| && ReadMembers(fp, t, []) == Throw
  {
    hide ReadMembers;
  }

  lemma {:induction false} ObjectThrows(fp: Doubles, s: string) returns (b: Broken, rest: string)
    requires s != "" && s[0] == '{' && ReadObject(fp, s) == Throw
    ensures BrokenOk(fp, b, rest) && s == EmitBroken(b, rest)
    decreases |s|, 1
  {
    hide *;
    var gap := Skipped(s[1..]);
    var t := SkipSpace(s[1..]);
    ObjectThrowTurn(fp, s, t);
    b, rest := MembersThrow(fp, t, []);
    b := RecordBreaks(fp, s, gap, t, b, rest);
  }

  function WithBefore(b: Broken, before: string): Broken
    requires b.InKey? || b.InValue?
  {
    if b.InKey? then InKey(b.entries, before, b.pieces, b.hex)
    else InValue(b.entries, before, b.key, b.beforeColon, b.afterColon, b.inner)
  }

  lemma RecordBreaks(fp: Doubles, s: string, gap: string, t: string, b: Broken, rest: string) returns (b': Broken)
    requires s != "" && s[0] == '{' && s[1..] == gap + t && AllSpace(gap)
    requires (b.InKey? || b.InValue?) && BrokenOk(fp, b, rest) && ['{'] + t == EmitBroken(b, rest)
    ensures BrokenOk(fp, b', rest) && s == EmitBroken(b', rest)
  {
    hide EntriesOk, LeadEntries, AllSpace, EmitString, EmitBadString, PiecesOk, BadHex;
    assert s == ['{'] + (gap + t);
    var quoted := if b.InKey? then EmitBadString(b.pieces, b.hex, rest)
                  else EmitString(b.key, b.beforeColon + ([':'] + (b.afterColon + EmitBroken(b.inner, rest))));
    var tail := b.before + quoted;
    assert (['{'] + t)[1..] == t && (['{'] + LeadEntries(b.entries, tail))[1..] == LeadEntries(b.entries, tail);
    assert t == LeadEntries(b.entries, tail);
    if b.entries == [] {
      NoLeadItems(tail);
      NoLeadItems(gap + tail);
      SpacesJoin(gap, b.before);
      assert gap + tail == (gap + b.before) + quoted;
      b' := WithBefore(b, gap + b.before);
    } else {
      var entries' := GapBeforeEntries(fp, gap, b.entries, tail);
      b' := b.(entries := entries');
    }
  }

  lemma GapBeforeEntries(fp: Doubles, gap: string, entries: seq<Entry>, tail: string) returns (entries': seq<Entry>)
    requires AllSpace(gap) && entries != [] && EntriesOk(fp, entries)
    ensures EntriesOk(fp, entries') && gap + LeadEntries(entries, tail) == LeadEntries(entries', tail)
  {
    hide EmitEntries, EntriesOk, AllSpace;
    entries' := WithGapBefore(fp, gap, entries, EmitEntries(entries, [','] + tail), [','] + tail);
  }

  /** What a turn of the member loop looked like before the parser threw. */
  lemma MembersThrowTurn(fp: Doubles, s: string, acc: seq<Member>)
    requires ReadMembers(fp, s, acc) == Throw
    ensures s != "" && !ReadMember(fp, s).Fail?
    ensures ReadMember(fp, s).Ok? ==>
              var m := ReadMember(fp, s).value;
              var next := SkipSpace(ReadMember(fp, s).rest);
              && next != "" && |next| <= |s| && next[0] == ',' && next == [','] + next[1..]
              && ReadMembers(fp, next[1..], SetMember(acc, m.key, m.value)) == Throw
  {
    hide ReadMember;
  }

  lemma {:induction false} MembersThrow(fp: Doubles, s: string, acc: seq<Member>) returns (b: Broken, rest: string)
    requires ReadMembers(fp, s, acc) == Throw
    ensures (b.InKey? || b.InValue?) && BrokenOk(fp, b, rest) && ['{'] + s == EmitBroken(b, rest)
    decreases |s|, 4
  {
    hide *;
    MembersThrowTurn(fp, s, acc);
    if ReadMember(fp, s) == Throw {
      b, rest := MemberThrows(fp, s);
    } else {
      var m := ReadMember(fp, s).value;
      var next := SkipSpace(ReadMember(fp, s).rest);
      var e := EntryIsSyntax(fp, s, next);
      b, rest := MembersThrow(fp, next[1..], SetMember(acc, m.key, m.value));
      b := EntryBefore(fp, e, s, next[1..], b, rest);
    }
  }

  lemma EntryBefore(fp: Doubles, e: Entry, s: string, more: string, b: Broken, rest: string) returns (b': Broken)
    requires EntryOk(fp, e) && s == EmitEntry(e, [','] + more)
    requires (b.InKey? || b.InValue?) && BrokenOk(fp, b, rest) && ['{'] + more == EmitBroken(b, rest)
    ensures (b'.InKey? || b'.InValue?) && BrokenOk(fp, b', rest) && ['{'] + s == EmitBroken(b', rest)
  {
    hide EntryOk, LeadEntries, AllSpace, EmitString, EmitBadString, EmitEntry, PiecesOk, BadHex;
    var quoted := if b.InKey? then EmitBadString(b.pieces, b.hex, rest)
                  else EmitString(b.key, b.beforeColon + ([':'] + (b.afterColon + EmitBroken(b.inner, rest))));
    var tail := b.before + quoted;
    assert (['{'] + more)[1..] == more && (['{'] + LeadEntries(b.entries, tail))[1..] == LeadEntries(b.entries, tail);
    assert more == LeadEntries(b.entries, tail);
    var entries := [e] + b.entries;
    assert entries[1..] == b.entries;
    LeadEntriesStep(entries, tail);
    UnfoldEntries(fp, entries, []);
    b' := b.(entries := entries);
  }

  /** A member throws in its key or in its value. */
  lemma MemberThrowTurn(fp: Doubles, s: string)
    requires ReadMember(fp, s) == Throw
    ensures var q := ReadString(SkipSpace(s));
            || q == Throw
            || (q.Ok? && var t := SkipSpace(q.rest);
                t != "" && t == [':'] + t[1..] && |t| <= |s| && ReadValue(fp, SkipSpace(t[1..])) == Throw)
  {
    hide ReadString, ReadValue;
  }

  lemma {:induction false} MemberThrows(fp: Doubles, s: string) returns (b: Broken, rest: string)
    requires s != "" && ReadMember(fp, s) == Throw
    ensures (b.InKey? || b.InValue?) && BrokenOk(fp, b, rest) && ['{'] + s == EmitBroken(b, rest)
    decreases |s|, 3
  {
    hide *;
    MemberThrowTurn(fp, s);
    var before := Skipped(s);
    var quoted := SkipSpace(s);
    NoItemsOk(fp);
    if ReadString(quoted) == Throw {
      var ps, hex;
      ps, hex, rest := StringThrows(quoted);
      b := InKey([], before, ps, hex);
      NoLeadItems(before + quoted);
      KeyBreaks(fp, before, ps, hex, rest);
    } else {
      var key := StringIsSyntax(quoted);
      var afterKey := ReadString(quoted).rest;
      var beforeColon := Skipped(afterKey);
      var value := SkipSpace(afterKey)[1..];
      var afterColon := Skipped(value);
      var gap, inner;
      gap, inner, rest := ValueThrows(fp, SkipSpace(value));
      BreaksMeans(fp, SkipSpace(value), gap, inner, rest);
      SpacesJoin(afterColon, gap);
      assert value == (afterColon + gap) + EmitBroken(inner, rest);
      b := InValue([], before, key, beforeColon, afterColon + gap, inner);
      ValueBreaks(fp, b, rest);
    }
  }

  lemma KeyBreaks(fp: Doubles, before: string, ps: seq<Piece>, hex: string, rest: string)
    requires AllSpace(before) && PiecesOk(ps) && BadHex(hex)
    ensures var b := InKey([], before, ps, hex);
            BrokenOk(fp, b, rest) && EmitBroken(b, rest) == ['{'] + (before + EmitBadString(ps, hex, rest))
  {
    hide AllSpace, PiecesOk, BadHex, EmitBadString;
  }

  lemma ValueBreaks(fp: Doubles, b: Broken, rest: string)
    requires b.InValue? && b.entries == [] && AllSpace(b.before) && PiecesOk(b.key) && AllSpace(b.beforeColon)
    requires AllSpace(b.afterColon) && BrokenOk(fp, b.inner, rest)
    ensures BrokenOk(fp, b, rest)
    ensures EmitBroken(b, rest) ==
            ['{'] + (b.before + EmitString(b.key, b.beforeColon + ([':'] + (b.afterColon + EmitBroken(b.inner, rest)))))
  {
    hide AllSpace, PiecesOk, EmitString;
  }

  // ---------------------------------------------------------------- exactly these texts

  /** The parser throws exactly on the texts that run into something the library does not convert. */
  lemma ThrowsExactly(fp: Doubles, text: string)
    ensures ReadValue(fp, text) == Throw <==> exists before, b, rest :: Breaks(fp, text, before, b, rest)
  {
    hide ReadValue, Breaks;
    if ReadValue(fp, text) == Throw {
      var before, b, rest := ValueThrows(fp, text);
    }
    forall before, b, rest | Breaks(fp, text, before, b, rest)
      ensures ReadValue(fp, text) == Throw
    {
      BreaksMeans(fp, text, before, b, rest);
      BrokenThrows(fp, b, before, rest);
    }
  }

  /** The same for `Parse`. */
  lemma ParseThrowsExactly(fp: Doubles, text: string)
    ensures ReadText(fp, text) == Throw <==> exists before, b, rest :: Breaks(fp, text, before, b, rest)
  {
    ReadValueSkips(fp, text);
    ReadNothing(fp);
    ThrowsExactly(fp, text);
    hide ReadValue, Breaks, SkipSpace;
  }
}
