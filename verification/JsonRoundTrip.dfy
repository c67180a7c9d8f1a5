/**
 Serializing and reading back.

 `Plain(v)` is the syntax `Serialize` writes for `v`; that it is written, that it means `v`, and
 that the parser reads it give the round trip. In the other direction, every value the parser
 returns is sound, so a text that was read once can be rewritten and read again.
 */
module JsonRoundTrip {
  import opened Text
  import opened Json
  import opened JsonReader
  import opened JsonSyntax

  // ---------------------------------------------------------------- the syntax a serializer writes

  function PlainPiece(c: char): (p: Piece) {
    if c == '"' || c == '\\' then Short(c)
    else if c == BACKSPACE then Short('b')
    else if c == FORM_FEED then Short('f')
    else if c == '\n' then Short('n')
    else if c == '\r' then Short('r')
    else if c == '\t' then Short('t')
    else if c < ' ' then Code("00" + [HexChar(c as int / 16), HexChar(c as int % 16)])
    else Raw(c)
  }

  function PlainPieces(s: string): (ps: seq<Piece>) {
    if s == "" then [] else [PlainPiece(s[0])] + PlainPieces(s[1..])
  }

  function Plain(fp: Doubles, v: Value): Node
    decreases v
  {
    match v
    case Null => NullWord
    case Boolean(b) => BooleanWord(b)
    case Integer(n) => Number(ToString(n))
    case Float(t) => Number(fp.prints(t))
    case String(s) => Quoted(PlainPieces(s))
    case Array(es) => List("", PlainItems(fp, es))
    case Object(ms) => Record("", PlainEntries(fp, ms))
  }

  function PlainItems(fp: Doubles, es: seq<Value>): (items: seq<Item>)
    ensures |items| == |es|
    decreases es
  {
    if es == [] then [] else [Item("", Plain(fp, es[0]), "")] + PlainItems(fp, es[1..])
  }

  function PlainEntry(fp: Doubles, m: Member): Entry
    decreases m
  {
    Entry("", PlainPieces(m.key), "", "", Plain(fp, m.value), "")
  }

  function PlainEntries(fp: Doubles, ms: seq<Member>): (entries: seq<Entry>)
    ensures |entries| == |ms|
    decreases ms
  {
    if ms == [] then [] else [PlainEntry(fp, ms[0])] + PlainEntries(fp, ms[1..])
  }

  // ---------------------------------------------------------------- strings

  lemma ReadHexPair(hi: char, lo: char)
    requires IsHex(hi) && IsHex(lo)
    ensures ReadHex(['0', '0', hi, lo]) == Some(HexValue(hi) * 16 + HexValue(lo))
  {
    var hex := ['0', '0', hi, lo];
    assert SkipCSpace(hex) == hex;
    assert hex[1..] == ['0', hi, lo] && hex[1..][1..] == [hi, lo] && [hi, lo][1..] == [lo] && [lo][1..] == [];
    calc {
      HexRun(hex, 0);
      HexRun(hex[1..], 0);
      HexRun([hi, lo], 0);
      HexRun([lo], HexValue(hi));
      HexRun([], HexValue(hi) * 16 + HexValue(lo));
    }
    hide HexRun, SkipCSpace;
  }

  lemma PlainPieceCorrect(c: char)
    ensures PieceOk(PlainPiece(c))
    ensures PieceValue(PlainPiece(c)) == [c]
    ensures PieceText(PlainPiece(c)) == Escape(c)
  {
    if PlainPiece(c).Code? {
      ControlPiece(c);
    } else {
      hide ReadHex;
    }
  }

  /** A control character without a short escape is written by its two hexadecimal digits. */
  lemma ControlPiece(c: char)
    requires PlainPiece(c).Code?
    ensures PieceOk(PlainPiece(c)) && PieceValue(PlainPiece(c)) == [c] && PieceText(PlainPiece(c)) == Escape(c)
  {
    hide ReadHex, HexValue, HexRun, IsHex, HexChar, CodeBytes;
    var hi, lo := HexChar(c as int / 16), HexChar(c as int % 16);
    ReadHexPair(hi, lo);
    assert PlainPiece(c).hex == ['0', '0', hi, lo];
    CodePiece(PlainPiece(c).hex, c);
    assert "\\u00" + [hi, lo] == ['\\', 'u'] + ['0', '0', hi, lo];
  }

  lemma CodePiece(hex: string, c: char)
    requires |hex| == 4 && ReadHex(hex) == Some(c as int) && c < ' '
    ensures PieceOk(Code(hex)) && PieceValue(Code(hex)) == [c] && PieceText(Code(hex)) == ['\\', 'u'] + hex
  {
    hide ReadHex;
  }

  lemma {:induction false} PlainPiecesCorrect(s: string, rest: string)
    ensures PiecesOk(PlainPieces(s)) && Spelled(PlainPieces(s)) == s
    ensures EmitPieces(PlainPieces(s), rest) == EscapeAll(s) + rest
  {
    if s != "" {
      PlainPieceCorrect(s[0]);
      PlainPiecesCorrect(s[1..], rest);
      var ps := PlainPieces(s);
      assert ps[0] == PlainPiece(s[0]) && ps[1..] == PlainPieces(s[1..]);
      assert EmitPieces(ps, rest) == Escape(s[0]) + (EscapeAll(s[1..]) + rest);
      assert Spelled(ps) == [s[0]] + s[1..];
    }
  }

  lemma PlainStringCorrect(s: string, rest: string)
    ensures PiecesOk(PlainPieces(s)) && Spelled(PlainPieces(s)) == s
    ensures EmitString(PlainPieces(s), rest) == Quote(s) + rest
  {
    PlainPiecesCorrect(s, ['"'] + rest);
    assert EmitString(PlainPieces(s), rest) == ['"'] + (EscapeAll(s) + (['"'] + rest));
  }

  // ---------------------------------------------------------------- numbers

  lemma PrintedInteger(n: int)
    requires IsInt64(n)
    ensures IsIntegerToken(ToString(n)) && Stoll(ToString(n)) == Some(n)
  {
    var t := ToString(n);
    if n < 0 {
      assert t[1..] == Decimal(-n);
      DecimalInverse(-n);
    } else {
      DecimalInverse(n);
      assert IsDigit(t[0]);
    }
  }

  // ---------------------------------------------------------------- Plain writes what Serialize writes

  lemma {:induction false} PlainText(fp: Doubles, v: Value, rest: string)
    ensures Emit(Plain(fp, v), rest) == Serialize(fp, v) + rest
    decreases v
  {
    match v
    case Null =>
    case Boolean(b) =>
    case Integer(n) =>
    case Float(t) =>
    case String(s) => PlainStringCorrect(s, rest);
    case Array(es) => PlainArrayText(fp, es, rest);
    case Object(ms) => PlainObjectText(fp, ms, rest);
  }

  lemma {:induction false} PlainArrayText(fp: Doubles, es: seq<Value>, rest: string)
    ensures Emit(Plain(fp, Array(es)), rest) == Serialize(fp, Array(es)) + rest
    decreases es, 1
  {
    hide EmitItems;
    var close := [']'] + rest;
    if es == [] {
      assert "" + close == close;
    } else {
      hide SerializeElements;
      PlainItemsText(fp, es, close);
      assert "[" + SerializeElements(fp, es) + "]" + rest == ['['] + (SerializeElements(fp, es) + close);
    }
  }

  lemma {:induction false} PlainObjectText(fp: Doubles, ms: seq<Member>, rest: string)
    ensures Emit(Plain(fp, Object(ms)), rest) == Serialize(fp, Object(ms)) + rest
    decreases ms, 1
  {
    hide EmitEntries;
    var close := ['}'] + rest;
    if ms == [] {
      assert "" + close == close;
    } else {
      hide SerializeMembers;
      PlainEntriesText(fp, ms, close);
      assert "{" + SerializeMembers(fp, ms) + "}" + rest == ['{'] + (SerializeMembers(fp, ms) + close);
    }
  }

  lemma {:induction false} PlainItemsText(fp: Doubles, es: seq<Value>, rest: string)
    requires es != []
    ensures EmitItems(PlainItems(fp, es), rest) == SerializeElements(fp, es) + rest
    decreases es, 0
  {
    hide Emit, Serialize, Plain, EmitItems;
    var items := PlainItems(fp, es);
    var next := if |es| == 1 then rest else [','] + EmitItems(items[1..], rest);
    assert items[0] == Item("", Plain(fp, es[0]), "") && items[1..] == PlainItems(fp, es[1..]);
    UnfoldItems(items, rest);
    PlainText(fp, es[0], next);
    PlainItemText(fp, es[0], next);
    assert EmitItems(items, rest) == Serialize(fp, es[0]) + next;
    if |es| > 1 {
      PlainItemsText(fp, es[1..], rest);
      assert Serialize(fp, es[0]) + ([','] + (SerializeElements(fp, es[1..]) + rest))
          == Serialize(fp, es[0]) + ("," + SerializeElements(fp, es[1..])) + rest;
    } else {
      assert Serialize(fp, es[0]) + "" == Serialize(fp, es[0]);
    }
  }

  lemma PlainItemText(fp: Doubles, v: Value, rest: string)
    ensures EmitItem(Item("", Plain(fp, v), ""), rest) == Emit(Plain(fp, v), rest)
  {
    assert "" + rest == rest;
  }

  lemma {:induction false} PlainEntryText(fp: Doubles, m: Member, rest: string)
    ensures EmitEntry(PlainEntry(fp, m), rest) == SerializeMember(fp, m) + rest
    decreases m
  {
    hide Emit, EmitString, PiecesOk, Spelled, Plain, PlainPieces, Quote, Serialize;
    var e := PlainEntry(fp, m);
    PlainText(fp, m.value, rest);
    assert "" + rest == rest;
    var value := Emit(e.node, rest);
    assert "" + value == value;
    assert "" + ([':'] + value) == [':'] + value;
    PlainStringCorrect(m.key, [':'] + value);
    assert EmitEntry(e, rest) == Quote(m.key) + ([':'] + (Serialize(fp, m.value) + rest));
  }

  lemma {:induction false} PlainEntriesText(fp: Doubles, ms: seq<Member>, rest: string)
    requires ms != []
    ensures EmitEntries(PlainEntries(fp, ms), rest) == SerializeMembers(fp, ms) + rest
    decreases ms, 0
  {
    hide EmitEntry, SerializeMember, PlainEntry;
    var entries := PlainEntries(fp, ms);
    var next := if |ms| == 1 then rest else [','] + EmitEntries(entries[1..], rest);
    assert entries[0] == PlainEntry(fp, ms[0]) && entries[1..] == PlainEntries(fp, ms[1..]);
    PlainEntryText(fp, ms[0], next);
    assert EmitEntries(entries, rest) == SerializeMember(fp, ms[0]) + next;
    if |ms| > 1 {
      PlainEntriesText(fp, ms[1..], rest);
      assert SerializeMember(fp, ms[0]) + ([','] + (SerializeMembers(fp, ms[1..]) + rest))
          == SerializeMember(fp, ms[0]) + ("," + SerializeMembers(fp, ms[1..])) + rest;
    } else {
      assert SerializeMember(fp, ms[0]) + "" == SerializeMember(fp, ms[0]);
    }
  }

  // ---------------------------------------------------------------- Plain means the value

  lemma {:induction false} PlainMeaning(fp: Doubles, v: Value)
    requires Sound(v) && FloatFree(v)
    ensures NodeOk(fp, Plain(fp, v)) && Meaning(Plain(fp, v)) == v
    decreases v
  {
    match v
    case Integer(n) => PrintedInteger(n);
    case String(s) => PlainPiecesCorrect(s, "");
    case Array(es) => PlainItemsMeaning(fp, es);
    case Object(ms) => PlainEntriesMeaning(fp, ms, []);
    case _ =>
  }

  lemma {:induction false} PlainItemsMeaning(fp: Doubles, es: seq<Value>)
    requires forall i :: 0 <= i < |es| ==> Sound(es[i]) && FloatFree(es[i])
    ensures ItemsOk(fp, PlainItems(fp, es)) && ItemMeanings(PlainItems(fp, es)) == es
    decreases es
  {
    if es != [] {
      PlainMeaning(fp, es[0]);
      PlainItemsMeaning(fp, es[1..]);
      assert PlainItems(fp, es)[1..] == PlainItems(fp, es[1..]);
      assert es == [es[0]] + es[1..];
    }
  }

  predicate Printable(ms: seq<Member>) {
    forall i :: 0 <= i < |ms| ==> Sound(ms[i].value) && FloatFree(ms[i].value)
  }

  lemma NoEntries(fp: Doubles, acc: seq<Member>)
    ensures EntriesOk(fp, PlainEntries(fp, [])) && EntryMeanings(PlainEntries(fp, []), acc) == acc
  {
  }

  lemma UnfoldPlainEntries(fp: Doubles, ms: seq<Member>)
    requires ms != [] && Printable(ms)
    ensures Sound(ms[0].value) && FloatFree(ms[0].value) && Printable(ms[1..])
    ensures PlainEntries(fp, ms) != []
    ensures PlainEntries(fp, ms)[0] == PlainEntry(fp, ms[0])
    ensures PlainEntries(fp, ms)[1..] == PlainEntries(fp, ms[1..])
  {
  }

  lemma {:induction false} PlainEntriesMeaning(fp: Doubles, ms: seq<Member>, acc: seq<Member>)
    requires UniqueKeys(acc + ms) && Printable(ms)
    ensures EntriesOk(fp, PlainEntries(fp, ms)) && EntryMeanings(PlainEntries(fp, ms), acc) == acc + ms
    decreases ms
  {
    hide *;
    if ms == [] {
      NoEntries(fp, acc);
      assert acc + ms == acc;
    } else {
      UnfoldPlainEntries(fp, ms);
      var entries := PlainEntries(fp, ms);
      PlainEntryMeaning(fp, ms[0]);
      UnfoldEntries(fp, entries, acc);
      SetFreshMember(acc, ms);
      assert acc + [ms[0]] + ms[1..] == acc + ms;
      PlainEntriesMeaning(fp, ms[1..], acc + [ms[0]]);
    }
  }

  lemma {:induction false} PlainEntryMeaning(fp: Doubles, m: Member)
    requires Sound(m.value) && FloatFree(m.value)
    ensures EntryOk(fp, PlainEntry(fp, m)) && EntryMeaning(PlainEntry(fp, m)) == m
    decreases m
  {
    PlainMeaning(fp, m.value);
    PlainPiecesCorrect(m.key, "");
  }

  // ---------------------------------------------------------------- round trips

  /** Serialized text is read back as the value it came from, whatever follows it that would not extend a number. */
  lemma SerializeThenReadValue(fp: Doubles, v: Value, rest: string)
    requires Sound(v) && FloatFree(v)
    requires v.Integer? && rest != "" ==> !IsDigit(rest[0]) && rest[0] != '.' && rest[0] != 'e' && rest[0] != 'E'
    ensures ReadValue(fp, Serialize(fp, v) + rest) == Ok(v, rest)
  {
    if v.Integer? {
      PrintedInteger(v.number);
      IntegerEndsAt(ToString(v.number), rest);
    }
    PlainMeaning(fp, v);
    PlainText(fp, v, rest);
    ReadNode(fp, Plain(fp, v), "", rest);
    assert "" + Emit(Plain(fp, v), rest) == Serialize(fp, v) + rest;
  }

  /** Parsing what was serialized succeeds, gives the value back and reads every byte. */
  lemma SerializeThenParse(fp: Doubles, v: Value)
    requires Sound(v) && FloatFree(v)
    ensures ReadText(fp, Serialize(fp, v)) == Ok(v, "")
  {
    if v.Integer? {
      PrintedInteger(v.number);
      IntegerEndsAt(ToString(v.number), "");
    }
    PlainMeaning(fp, v);
    PlainText(fp, v, "");
    ReadDocument(fp, Plain(fp, v), "", "", "");
    var s := Serialize(fp, v);
    assert "" + "" == "";
    assert "" + Emit(Plain(fp, v), "" + "") == s;
  }

  /** Serialization is injective on the values that survive it. */
  lemma SerializeInjective(fp: Doubles, v: Value, w: Value)
    requires Sound(v) && FloatFree(v) && Sound(w) && FloatFree(w)
    requires Serialize(fp, v) == Serialize(fp, w)
    ensures v == w
  {
    SerializeThenParse(fp, v);
    SerializeThenParse(fp, w);
  }

  // ---------------------------------------------------------------- what the parser returns is sound

  lemma {:induction false} ReadValueSound(fp: Doubles, text: string)
    requires ReadValue(fp, text).Ok?
    ensures Sound(ReadValue(fp, text).value)
    decreases |text|, 2
  {
    var s := SkipSpace(text);
    if s[0] == '[' {
      ReadArraySound(fp, s);
    } else if s[0] == '{' {
      ReadObjectSound(fp, s);
    }
  }

  lemma {:induction false} ReadArraySound(fp: Doubles, s: string)
    requires s != "" && ReadArray(fp, s).Ok?
    ensures Sound(ReadArray(fp, s).value)
    decreases |s|, 1
  {
    var t := SkipSpace(s[1..]);
    if !(t != "" && t[0] == ']') {
      ReadElementsSound(fp, t, []);
    }
  }

  lemma {:induction false} ReadElementsSound(fp: Doubles, s: string, acc: seq<Value>)
    requires ReadElements(fp, s, acc).Ok?
    requires Sound(Array(acc))
    ensures Sound(ReadElements(fp, s, acc).value)
    decreases |s|, 3
  {
    if s != "" {
      ReadValueSound(fp, SkipSpace(s));
      var Ok(v, rest) := ReadValue(fp, SkipSpace(s));
      var t := SkipSpace(rest);
      assert Sound(Array(acc + [v]));
      if t != "" && t[0] == ',' {
        ReadElementsSound(fp, t[1..], acc + [v]);
      }
    }
  }

  lemma {:induction false} ReadObjectSound(fp: Doubles, s: string)
    requires s != "" && ReadObject(fp, s).Ok?
    ensures Sound(ReadObject(fp, s).value)
    decreases |s|, 1
  {
    var t := SkipSpace(s[1..]);
    if !(t != "" && t[0] == '}') {
      ReadMembersSound(fp, t, []);
    }
  }

  lemma {:induction false} ReadMemberSound(fp: Doubles, s: string)
    requires ReadMember(fp, s).Ok?
    ensures Sound(ReadMember(fp, s).value.value)
    decreases |s|, 3
  {
    var Ok(key, rest) := ReadString(SkipSpace(s));
    ReadValueSound(fp, SkipSpace(SkipSpace(rest)[1..]));
  }

  lemma {:induction false} ReadMembersSound(fp: Doubles, s: string, acc: seq<Member>)
    requires ReadMembers(fp, s, acc).Ok?
    requires Sound(Object(acc))
    ensures Sound(ReadMembers(fp, s, acc).value)
    decreases |s|, 4
  {
    if s != "" {
      ReadMemberSound(fp, s);
      var Ok(m, rest) := ReadMember(fp, s);
      var t := SkipSpace(rest);
      SetMemberSound(acc, m);
      if t != "" && t[0] == ',' {
        ReadMembersSound(fp, t[1..], SetMember(acc, m.key, m.value));
      }
    }
  }

  lemma SetMemberSound(acc: seq<Member>, m: Member)
    requires Sound(Object(acc)) && Sound(m.value)
    ensures Sound(Object(SetMember(acc, m.key, m.value)))
  {
    SetMemberKeepsUnique(acc, m.key, m.value);
  }

  /** Any accepted text without floating point numbers can be rewritten without changing its value. */
  lemma ReparseStable(fp: Doubles, text: string)
    requires ReadText(fp, text).Ok? && FloatFree(ReadText(fp, text).value)
    ensures Sound(ReadText(fp, text).value)
    ensures ReadText(fp, Serialize(fp, ReadText(fp, text).value)) == Ok(ReadText(fp, text).value, "")
  {
    ReadValueSound(fp, SkipSpace(text));
    SerializeThenParse(fp, ReadText(fp, text).value);
  }
}
