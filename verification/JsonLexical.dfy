/**
 The parser's lexical grammar (RFC 8259, sections 2, 6 and 7), character by character: which
 characters are white space, which letters may be escaped, how numbers are spelled, and that nothing
 else is let through.
 */
module JsonLexical {
  import opened Text
  import opened Json
  import opened JsonReader
  import opened JsonSyntax
  import opened JsonRoundTrip
  import opened JsonAcceptance
  import opened Utf8

  // ---------------------------------------------------------------- white space

  /** A blank, tab, line feed or carriage return is skipped before a value and after an opening bracket. */
  lemma BlankIsSkipped(fp: Doubles, c: char, s: string)
    requires c == ' ' || c == '\t' || c == '\n' || c == '\r'
    ensures ReadValue(fp, [c] + s) == ReadValue(fp, s)
    ensures ReadText(fp, [c] + s) == ReadText(fp, s)
    ensures ReadValue(fp, ['[', c] + s) == ReadValue(fp, ['['] + s)
    ensures ReadValue(fp, ['{', c] + s) == ReadValue(fp, ['{'] + s)
  {
    BlankSkipped(c, s);
    hide SkipSpace, ReadValue;
    ReadValueSkips(fp, [c] + s);
    ReadValueSkips(fp, s);
    BlankAfterBracket(fp, '[', c, s);
    BlankAfterBracket(fp, '{', c, s);
  }

  lemma BlankSkipped(c: char, s: string)
    requires c == ' ' || c == '\t' || c == '\n' || c == '\r'
    ensures SkipSpace([c] + s) == SkipSpace(s)
  {
    assert ([c] + s)[1..] == s;
  }

  lemma BlankAfterBracket(fp: Doubles, bracket: char, c: char, s: string)
    requires (bracket == '[' || bracket == '{') && SkipSpace([c] + s) == SkipSpace(s)
    ensures ReadValue(fp, [bracket, c] + s) == ReadValue(fp, [bracket] + s)
  {
    hide ReadElements, ReadMembers, ReadValue, SkipSpace;
    var t, u := [bracket, c] + s, [bracket] + s;
    assert t[1..] == [c] + s && u[1..] == s;
    BracketIsNoSpace(bracket, t);
    BracketIsNoSpace(bracket, u);
    Dispatch(fp, t, t);
    Dispatch(fp, u, u);
  }

  lemma BracketIsNoSpace(bracket: char, s: string)
    requires (bracket == '[' || bracket == '{') && s != "" && s[0] == bracket
    ensures SkipSpace(s) == s
  {
  }

  /** So is it between an element or member and the separators around it, at any place of a list. */
  lemma BlankInsideIsSkipped(fp: Doubles, c: char, s: string, elements: seq<Value>, members: seq<Member>)
    requires c == ' ' || c == '\t' || c == '\n' || c == '\r'
    ensures s != "" ==> ReadElements(fp, [c] + s, elements) == ReadElements(fp, s, elements)
    ensures s != "" ==> ReadMembers(fp, [c] + s, members) == ReadMembers(fp, s, members)
    ensures ReadMember(fp, [c] + s) == ReadMember(fp, s)
  {
    BlankSkipped(c, s);
    hide *;
    MemberSkippedAlike(fp, [c] + s, s);
    if s != "" {
      SkippedAlike(fp, [c] + s, s, elements, members);
    }
  }

  /** The readers of list elements and members see only what is left after the white space. */
  lemma SkippedAlike(fp: Doubles, s: string, t: string, elements: seq<Value>, members: seq<Member>)
    requires SkipSpace(s) == SkipSpace(t) && s != "" && t != ""
    ensures ReadElements(fp, s, elements) == ReadElements(fp, t, elements)
    ensures ReadMembers(fp, s, members) == ReadMembers(fp, t, members)
  {
    hide ReadValue, ReadString, SkipSpace;
    MemberSkippedAlike(fp, s, t);
  }

  lemma MemberSkippedAlike(fp: Doubles, s: string, t: string)
    requires SkipSpace(s) == SkipSpace(t)
    ensures ReadMember(fp, s) == ReadMember(fp, t)
  {
    hide ReadValue, ReadString, SkipSpace;
  }

  /** Every other character that starts no value is refused. */
  lemma NothingElseStarts(fp: Doubles, c: char, s: string)
    requires c != ' ' && c != '\t' && c != '\n' && c != '\r'
    requires c != 'n' && c != 't' && c != 'f' && c != '-' && c != '"' && c != '[' && c != '{' && !('0' <= c <= '9')
    ensures ReadValue(fp, [c] + s).Fail? && ReadText(fp, [c] + s).Fail?
  {
  }

  // ---------------------------------------------------------------- gaps everywhere

  /** The same syntax with one more gap at every place where white space may stand. */
  function Widened(n: Node, gap: string): Node
    decreases n
  {
    match n
    case List(g, items) => List(gap + g, WidenedItems(items, gap))
    case Record(g, entries) => Record(gap + g, WidenedEntries(entries, gap))
    case _ => n
  }

  function WidenedItem(item: Item, gap: string): Item
    decreases item
  {
    Item(gap + item.before, Widened(item.node, gap), item.after + gap)
  }

  function WidenedItems(items: seq<Item>, gap: string): (r: seq<Item>)
    ensures |r| == |items|
    decreases items
  {
    if items == [] then [] else [WidenedItem(items[0], gap)] + WidenedItems(items[1..], gap)
  }

  function WidenedEntry(e: Entry, gap: string): Entry
    decreases e
  {
    Entry(gap + e.before, e.key, e.beforeColon + gap, gap + e.afterColon, Widened(e.node, gap), e.after + gap)
  }

  function WidenedEntries(entries: seq<Entry>, gap: string): (r: seq<Entry>)
    ensures |r| == |entries|
    decreases entries
  {
    if entries == [] then [] else [WidenedEntry(entries[0], gap)] + WidenedEntries(entries[1..], gap)
  }

  lemma {:induction false} WidenedMeans(fp: Doubles, n: Node, gap: string)
    requires NodeOk(fp, n) && AllSpace(gap)
    ensures NodeOk(fp, Widened(n, gap)) && Meaning(Widened(n, gap)) == Meaning(n)
    decreases n
  {
    hide AllSpace, TokenOk;
    match n
    case List(g, items) =>
      SpacesJoin(gap, g);
      WidenedItemsMean(fp, items, gap);
    case Record(g, entries) =>
      SpacesJoin(gap, g);
      WidenedEntriesMean(fp, entries, gap, []);
    case _ =>
  }

  lemma {:induction false} WidenedItemsMean(fp: Doubles, items: seq<Item>, gap: string)
    requires ItemsOk(fp, items) && AllSpace(gap)
    ensures ItemsOk(fp, WidenedItems(items, gap)) && ItemMeanings(WidenedItems(items, gap)) == ItemMeanings(items)
    decreases items
  {
    hide AllSpace, Widened, NodeOk, Meaning;
    if items != [] {
      var item := items[0];
      SpacesJoin(gap, item.before);
      SpacesJoin(item.after, gap);
      WidenedMeans(fp, item.node, gap);
      WidenedItemsMean(fp, items[1..], gap);
      var wider := WidenedItems(items, gap);
      assert wider[0] == WidenedItem(item, gap) && wider[1..] == WidenedItems(items[1..], gap);
    }
  }

  lemma {:induction false} WidenedEntriesMean(fp: Doubles, entries: seq<Entry>, gap: string, acc: seq<Member>)
    requires EntriesOk(fp, entries) && AllSpace(gap)
    ensures EntriesOk(fp, WidenedEntries(entries, gap))
    ensures EntryMeanings(WidenedEntries(entries, gap), acc) == EntryMeanings(entries, acc)
    decreases entries
  {
    hide AllSpace, Widened, NodeOk, Meaning, PiecesOk, Spelled, SetMember;
    if entries != [] {
      var e := entries[0];
      SpacesJoin(gap, e.before);
      SpacesJoin(e.beforeColon, gap);
      SpacesJoin(gap, e.afterColon);
      SpacesJoin(e.after, gap);
      WidenedMeans(fp, e.node, gap);
      var m := EntryMeaning(e);
      WidenedEntriesMean(fp, entries[1..], gap, SetMember(acc, m.key, m.value));
      var wider := WidenedEntries(entries, gap);
      assert wider[0] == WidenedEntry(e, gap) && wider[1..] == WidenedEntries(entries[1..], gap);
      assert EntryMeaning(wider[0]) == m;
      UnfoldEntries(fp, entries, acc);
      UnfoldEntries(fp, wider, acc);
    }
  }

  /**
   Layout does not matter: blanks, tabs and line ends put at every place between tokens, around the
   whole text as well, leave the value read from it the same.
   */
  lemma LayoutIsIgnored(fp: Doubles, n: Node, gap: string)
    requires NodeOk(fp, n)
    requires forall i :: 0 <= i < |gap| ==> gap[i] == ' ' || gap[i] == '\t' || gap[i] == '\n' || gap[i] == '\r'
    ensures ReadText(fp, Emit(n, "")) == Ok(Meaning(n), "")
    ensures ReadText(fp, gap + Emit(Widened(n, gap), gap)) == Ok(Meaning(n), "")
  {
    hide *;
    GapIsAllSpace(gap);
    WidenedMeans(fp, n, gap);
    NothingIsSpace();
    Follows(fp, n, "");
    Follows(fp, Widened(n, gap), gap);
    assert "" + "" == "" && gap + "" == gap;
    ReadDocument(fp, n, "", "", "");
    assert "" + Emit(n, "") == Emit(n, "");
    ReadDocument(fp, Widened(n, gap), gap, gap, "");
  }

  lemma GapIsAllSpace(gap: string)
    requires forall i :: 0 <= i < |gap| ==> gap[i] == ' ' || gap[i] == '\t' || gap[i] == '\n' || gap[i] == '\r'
    ensures AllSpace(gap)
  {
  }

  lemma NothingIsSpace()
    ensures AllSpace("")
  {
  }

  lemma Follows(fp: Doubles, n: Node, gap: string)
    requires NodeOk(fp, n) && AllSpace(gap)
    ensures MayFollow(n, gap)
  {
    hide NodeOk, MayFollow;
    assert gap + "" == gap;
    FollowsNode(fp, n, gap, "");
  }

  // ---------------------------------------------------------------- strings

  /** The eight letters that may follow a backslash, and what they stand for. */
  lemma EscapeLetters(letter: char, meant: char, rest: string)
    requires || (letter == '"' && meant == '"') || (letter == '\\' && meant == '\\') || (letter == '/' && meant == '/')
             || (letter == 'b' && meant == 8 as char) || (letter == 'f' && meant == 12 as char)
             || (letter == 'n' && meant == 10 as char) || (letter == 'r' && meant == 13 as char)
             || (letter == 't' && meant == 9 as char)
    ensures ReadString(['"', '\\', letter, '"'] + rest) == Ok([meant], rest)
  {
    var s := ['"', '\\', letter, '"'] + rest;
    assert s[1..][2..] == ['"'] + rest;
    assert s[1..][0] == '\\' && s[1..][1] == letter;
    ReadClosingQuote(rest, [meant]);
    assert "" + [meant] == [meant];
  }

  /** No other letter but `u` may. */
  lemma NoOtherEscape(letter: char, rest: string)
    requires letter != '"' && letter != '\\' && letter != '/' && letter != 'b' && letter != 'f'
    requires letter != 'n' && letter != 'r' && letter != 't' && letter != 'u'
    ensures ReadString(['"', '\\', letter] + rest).Fail?
  {
    var s := ['"', '\\', letter] + rest;
    assert s[1..][0] == '\\' && s[1..][1] == letter;
  }

  /** A `\u` escape with digits in any case is read as the shortest encoding of the number they write. */
  lemma UnicodeEscape(a: int, b: int, c: int, d: int, upper: bool, rest: string)
    requires 0 <= a < 16 && 0 <= b < 16 && 0 <= c < 16 && 0 <= d < 16
    ensures var hex := [HexDigit(a, upper), HexDigit(b, upper), HexDigit(c, upper), HexDigit(d, upper)];
            var n := a * 4096 + b * 256 + c * 16 + d;
            var r := ReadString(['"', '\\', 'u'] + hex + ['"'] + rest);
            r.Ok? && r.rest == rest && ReadUnit(r.value) == Some((n, |r.value|))
  {
    var hex := [HexDigit(a, upper), HexDigit(b, upper), HexDigit(c, upper), HexDigit(d, upper)];
    hide *;
    HexDigitValue(a, upper);
    HexDigitValue(b, upper);
    HexDigitValue(c, upper);
    HexDigitValue(d, upper);
    OneEscape(hex, rest);
    FourDigitsAre(hex, a, b, c, d);
  }

  lemma FourDigitsAre(hex: string, a: int, b: int, c: int, d: int)
    requires |hex| == 4 && forall i :: 0 <= i < 4 ==> IsHex(hex[i])
    requires HexValue(hex[0]) == a && HexValue(hex[1]) == b && HexValue(hex[2]) == c && HexValue(hex[3]) == d
    ensures FourDigits(hex) == a * 4096 + b * 256 + c * 16 + d
  {
    hide HexValue, IsHex;
  }

  lemma OneEscape(hex: string, rest: string)
    requires |hex| == 4 && forall i :: 0 <= i < 4 ==> IsHex(hex[i])
    ensures var r := ReadString(['"', '\\', 'u'] + hex + ['"'] + rest);
            r.Ok? && r.rest == rest && ReadUnit(r.value) == Some((FourDigits(hex), |r.value|))
  {
    EscapeIsUtf8(hex, "");
    hide *;
    var p := Code(hex);
    assert PieceValue(p) + "" == PieceValue(p);
    OnePieceSpelled(p);
    ReadSpelledString([p], rest);
    EmitOnePiece(hex, rest);
    assert ['"'] + (['\\', 'u'] + hex + (['"'] + rest)) == ['"', '\\', 'u'] + hex + ['"'] + rest;
  }

  lemma OnePieceSpelled(p: Piece)
    requires PieceOk(p)
    ensures PiecesOk([p]) && Spelled([p]) == PieceValue(p)
  {
    hide PieceOk, PieceValue;
    assert [p][1..] == [];
  }

  lemma EmitOnePiece(hex: string, rest: string)
    ensures EmitString([Code(hex)], rest) == ['"'] + (['\\', 'u'] + hex + (['"'] + rest))
  {
    hide EmitPieces;
    var ps := [Code(hex)] + [];
    assert ps == [Code(hex)];
    OnePiece(Code(hex), [], ['"'] + rest);
    NoPieces(['"'] + rest);
  }

  // ---------------------------------------------------------------- numbers

  /** One digit after another, most significant first. */
  lemma DecimalDigits(n: nat, d: int)
    requires 0 <= d < 10
    ensures Decimal(10 * n + d) == (if n == 0 then "" else Decimal(n)) + ["0123456789"[d]]
  {
    assert DigitChar(d) == "0123456789"[d];
    assert (10 * n + d) / 10 == n && (10 * n + d) % 10 == d;
  }

  predicate EndsNumber(rest: string) {
    rest == "" || rest[0] == ' ' || rest[0] == '\t' || rest[0] == '\n' || rest[0] == '\r'
    || rest[0] == ',' || rest[0] == ']' || rest[0] == '}'
  }

  /** Any digits, leading zeros included, are read as the number they write when it fits 64 bits, and otherwise make the parser throw. */
  lemma IntegerIsRead(fp: Doubles, sign: string, digits: string, rest: string)
    requires (sign == "" || sign == "-") && digits != "" && AllDigits(digits) && EndsNumber(rest)
    ensures var n: int := if sign == "-" then 0 - DecimalValue(digits) else DecimalValue(digits);
            ReadValue(fp, sign + digits + rest) ==
            if -9223372036854775808 <= n <= 9223372036854775807 then Ok(Integer(n), rest) else Throw
  {
    hide DecimalValue;
    var t := sign + digits;
    var s := t + rest;
    IntegerToken(sign, digits);
    NumberEndOfInteger(t, digits, rest);
    assert s[..|t|] == t && s[|t|..] == rest && s[0] == t[0];
    hide NumberEnd, Stoll, IsIntegerToken;
    assert SkipSpace(s) == s;
    Dispatch(fp, s, s);
  }

  lemma IntegerToken(sign: string, digits: string)
    requires (sign == "" || sign == "-") && digits != "" && AllDigits(digits)
    ensures var t := sign + digits; var n: int := if sign == "-" then 0 - DecimalValue(digits) else DecimalValue(digits);
            && IsIntegerToken(t) && (t[0] == '-' || IsDigit(t[0])) && (sign == "" ==> t == digits)
            && Stoll(t) == if -9223372036854775808 <= n <= 9223372036854775807 then Some(n) else None
  {
    hide DecimalValue;
    var t := sign + digits;
    if sign == "" {
      assert t == digits;
    } else {
      assert t[1..] == digits;
    }
    assert t[0] == if sign == "" then digits[0] else '-';
  }

  /** A printed integer is read back when it fits 64 bits, and otherwise makes the parser throw. */
  lemma IntegerRange(fp: Doubles, n: int, rest: string)
    requires EndsNumber(rest)
    ensures ReadValue(fp, ToString(n) + rest) ==
            if -9223372036854775808 <= n <= 9223372036854775807 then Ok(Integer(n), rest) else Throw
  {
    hide *;
    var m := if n < 0 then -n else n;
    DecimalInverse(m);
    Printed(n);
    IntegerIsRead(fp, if n < 0 then "-" else "", Decimal(m), rest);
  }

  lemma Printed(n: int)
    ensures ToString(n) == (if n < 0 then "-" else "") + Decimal(if n < 0 then -n else n)
  {
    hide Decimal;
    assert n >= 0 ==> "" + Decimal(n) == Decimal(n);
  }

  lemma NumberEndOfInteger(t: string, digits: string, rest: string)
    requires digits != "" && AllDigits(digits) && (t == digits || t == "-" + digits) && EndsNumber(rest)
    ensures NumberEnd(t + rest) == (|t|, false)
  {
    hide *;
    var s := t + rest;
    var sign := if t == digits then "" else "-";
    assert s == sign + (digits + rest) && s[|t|..] == rest;
    AfterNumber(rest);
    WholeEnd(sign, digits, rest);
    NumberEndIs(s, |t|, |t|, |t|);
  }

  /** What ends a number is no digit, and starts no fraction and no exponent. */
  lemma AfterNumber(rest: string)
    requires EndsNumber(rest)
    ensures rest == "" || !IsDigit(rest[0])
    ensures FractionLength(rest) == 0 && ExponentLength(rest) == 0
  {
  }

  /** Digits, at least one. */
  predicate Digits(s: string) {
    s != "" && forall i :: 0 <= i < |s| ==> '0' <= s[i] <= '9'
  }

  /** What may come after the digits before the point. */
  predicate IsFraction(s: string) {
    s == "" || (s[0] == '.' && Digits(s[1..]))
  }

  predicate IsExponent(s: string) {
    s == "" || ((s[0] == 'e' || s[0] == 'E')
                && (Digits(s[1..]) || (|s| > 1 && (s[1] == '+' || s[1] == '-') && Digits(s[2..]))))
  }

  /** The digits before the point may be missing after a minus sign, if there are some after it. */
  predicate IsWhole(sign: string, whole: string, fraction: string) {
    (sign == "" || sign == "-") && (Digits(whole) || (whole == "" && sign == "-" && fraction != ""))
  }

  /** A number with a fraction or an exponent is read as one token, in either case of the `e`. */
  lemma FloatIsRead(fp: Doubles, sign: string, whole: string, fraction: string, exponent: string, rest: string)
    requires IsWhole(sign, whole, fraction) && IsFraction(fraction) && IsExponent(exponent)
    requires fraction + exponent != "" && EndsNumber(rest)
    ensures var t := sign + whole + fraction + exponent;
            ReadValue(fp, t + rest) == if fp.converts(t) then Ok(Float(t), rest) else Throw
  {
    hide *;
    var t := sign + whole + fraction + exponent;
    FloatEnd(sign, whole, fraction, exponent, rest);
    FloatHead(sign, whole, fraction, exponent);
    FloatTokenRead(fp, t, rest);
  }

  lemma FloatTokenRead(fp: Doubles, t: string, rest: string)
    requires t != "" && (t[0] == '-' || IsDigit(t[0])) && !IsSpace(t[0]) && HasMantissaDigit(t)
    requires NumberEnd(t + rest) == (|t|, true)
    ensures ReadValue(fp, t + rest) == if fp.converts(t) then Ok(Float(t), rest) else Throw
  {
    var s := t + rest;
    assert s[..|t|] == t && s[|t|..] == rest && s[0] == t[0];
    hide NumberEnd, HasMantissaDigit;
    assert SkipSpace(s) == s;
    Dispatch(fp, s, s);
  }

  lemma FloatHead(sign: string, whole: string, fraction: string, exponent: string)
    requires IsWhole(sign, whole, fraction) && IsFraction(fraction)
    ensures var t := sign + whole + fraction + exponent;
            t != "" && (t[0] == '-' || IsDigit(t[0])) && !IsSpace(t[0]) && HasMantissaDigit(t)
  {
    var t := sign + whole + fraction + exponent;
    assert t[0] == if sign != "" then sign[0] else whole[0];
    var i := if whole != "" then |sign| else |sign| + 1;
    assert t[i] == if whole != "" then whole[0] else fraction[1];
    assert whole == "" ==> fraction[1] == fraction[1..][0];
    assert IsDigit(t[i]);
    assert forall j :: 0 <= j < i ==> t[j] == (if j < |sign| then sign[j] else fraction[0]);
  }

  /** Without a digit before the exponent there is no number to convert, and the parser throws. */
  lemma NoDigitThrows(fp: Doubles, point: string, exponent: string, rest: string)
    requires (point == "" || point == ".") && IsExponent(exponent) && EndsNumber(rest)
    ensures ReadValue(fp, "-" + point + exponent + rest) == Throw
  {
    hide *;
    var t := "-" + point + exponent;
    NoDigitEnd(point, exponent, rest);
    NoMantissa(point, exponent);
    NoDigitRead(fp, t, rest);
  }

  lemma NoDigitEnd(point: string, exponent: string, rest: string)
    requires (point == "" || point == ".") && IsExponent(exponent) && EndsNumber(rest)
    ensures NumberEnd("-" + point + exponent + rest) == (|"-" + point + exponent|, point + exponent != "")
  {
    hide *;
    var after, end := point + (exponent + rest), exponent + rest;
    var s := "-" + point + exponent + rest;
    assert s == "-" + ("" + after);
    NoDigitHeads(point, exponent, rest);
    NothingIsDigits();
    WholeEnd("-", "", after);
    assert s[1..] == after && s[1 + |point|..] == end;
    ExponentEnd(exponent, rest);
    NumberEndIs(s, 1, 1 + |point|, |s| - |rest|);
  }

  lemma NothingIsDigits()
    ensures AllDigits("")
  {
  }

  lemma NoDigitHeads(point: string, exponent: string, rest: string)
    requires (point == "" || point == ".") && IsExponent(exponent) && EndsNumber(rest)
    ensures var after := point + (exponent + rest);
            (after == "" || !IsDigit(after[0])) && FractionLength(after) == |point|
  {
    var end := exponent + rest;
    var after := point + end;
    assert end != "" ==> end[0] == if exponent == "" then rest[0] else exponent[0];
    assert after != "" ==> after[0] == if point == "" then end[0] else point[0];
    if point != "" {
      assert after[1..] == end;
    }
  }

  lemma NoMantissa(point: string, exponent: string)
    requires (point == "" || point == ".") && IsExponent(exponent)
    ensures var t := "-" + point + exponent; !HasMantissaDigit(t) && t[0] == '-' && !AllDigits(t)
    ensures point + exponent == "" ==> "-" + point + exponent == "-"
  {
    var t := "-" + point + exponent;
    var n := 1 + |point|;
    assert forall i :: 0 <= i < n ==> !IsDigit(t[i]);
    assert |t| > n ==> t[n] == exponent[0];
  }

  lemma NoDigitRead(fp: Doubles, t: string, rest: string)
    requires t != "" && t[0] == '-' && !HasMantissaDigit(t)
    requires NumberEnd(t + rest) == (|t|, t != "-")
    ensures ReadValue(fp, t + rest) == Throw
  {
    var s := t + rest;
    assert s[..|t|] == t && s[0] == t[0];
    hide NumberEnd, HasMantissaDigit;
    assert SkipSpace(s) == s;
    Dispatch(fp, s, s);
    assert t == "-" ==> t[1..] == "";
  }

  lemma FloatEnd(sign: string, whole: string, fraction: string, exponent: string, rest: string)
    requires IsWhole(sign, whole, fraction) && IsFraction(fraction) && IsExponent(exponent)
    requires fraction + exponent != "" && EndsNumber(rest)
    ensures var t := sign + whole + fraction + exponent;
            NumberEnd(t + rest) == (|t|, true)
  {
    hide *;
    var after, end := fraction + (exponent + rest), exponent + rest;
    var s := sign + whole + fraction + exponent + rest;
    var b := |sign| + |whole|;
    FloatParts(sign, whole, fraction, exponent, rest);
    FloatHeads(fraction, exponent, rest);
    WholeIsDigits(sign, whole, fraction);
    WholeEnd(sign, whole, after);
    FractionEnd(fraction, end);
    ExponentEnd(exponent, rest);
    NumberEndIs(s, b, b + |fraction|, |s| - |rest|);
  }

  lemma FloatParts(sign: string, whole: string, fraction: string, exponent: string, rest: string)
    ensures var s := sign + whole + fraction + exponent + rest; var b := |sign| + |whole|;
            && s == sign + (whole + (fraction + (exponent + rest)))
            && s[b..] == fraction + (exponent + rest) && s[b + |fraction|..] == exponent + rest
  {
  }

  /** What follows the digits before the point, and what follows those after it, is no digit. */
  lemma FloatHeads(fraction: string, exponent: string, rest: string)
    requires IsFraction(fraction) && IsExponent(exponent) && EndsNumber(rest)
    ensures var end := exponent + rest; end == "" || (!IsDigit(end[0]) && end[0] != '.')
    ensures var after := fraction + (exponent + rest); after == "" || !IsDigit(after[0])
  {
    var end := exponent + rest;
    var after := fraction + end;
    assert end != "" ==> end[0] == if exponent == "" then rest[0] else exponent[0];
    assert after != "" ==> after[0] == if fraction == "" then end[0] else fraction[0];
  }

  lemma NumberEndIs(s: string, b: nat, c: nat, d: nat)
    requires b <= c <= d <= |s|
    requires IntegerLength(s) == b && FractionLength(s[b..]) == c - b && ExponentLength(s[c..]) == d - c
    ensures NumberEnd(s) == (d, b != d)
  {
    hide IntegerLength, FractionLength, ExponentLength;
  }

  lemma WholeIsDigits(sign: string, whole: string, fraction: string)
    requires IsWhole(sign, whole, fraction)
    ensures (sign == "" || sign == "-") && AllDigits(whole) && (sign == "" ==> whole != "")
  {
  }

  lemma WholeEnd(sign: string, whole: string, after: string)
    requires (sign == "" || sign == "-") && AllDigits(whole) && (sign == "" ==> whole != "")
    requires after == "" || !IsDigit(after[0])
    ensures IntegerLength(sign + (whole + after)) == |sign| + |whole|
  {
    DigitRunOf(whole, after);
    var s := sign + (whole + after);
    if sign == "" {
      assert s == whole + after && s[0] == whole[0];
    } else {
      assert s[1..] == whole + after;
    }
  }

  lemma FractionEnd(fraction: string, after: string)
    requires IsFraction(fraction) && (after == "" || (!IsDigit(after[0]) && after[0] != '.'))
    ensures FractionLength(fraction + after) == |fraction|
  {
    if fraction != "" {
      DigitRunOf(fraction[1..], after);
      assert (fraction + after)[1..] == fraction[1..] + after;
    } else {
      assert fraction + after == after;
    }
  }

  lemma ExponentEnd(exponent: string, rest: string)
    requires IsExponent(exponent) && EndsNumber(rest)
    ensures ExponentLength(exponent + rest) == |exponent|
  {
    var s := exponent + rest;
    if exponent == "" {
      assert s == rest;
    } else if Digits(exponent[1..]) {
      PlainExponent(exponent, rest);
    } else {
      SignedExponent(exponent, rest);
    }
  }

  lemma PlainExponent(exponent: string, rest: string)
    requires exponent != "" && (exponent[0] == 'e' || exponent[0] == 'E') && Digits(exponent[1..]) && EndsNumber(rest)
    ensures ExponentLength(exponent + rest) == |exponent|
  {
    var s := exponent + rest;
    assert s[1..] == exponent[1..] + rest && s[1] == exponent[1..][0];
    DigitRunOf(exponent[1..], rest);
    hide DigitRun;
  }

  lemma SignedExponent(exponent: string, rest: string)
    requires |exponent| > 1 && (exponent[0] == 'e' || exponent[0] == 'E') && (exponent[1] == '+' || exponent[1] == '-')
    requires Digits(exponent[2..]) && EndsNumber(rest)
    ensures ExponentLength(exponent + rest) == |exponent|
  {
    var s := exponent + rest;
    assert s[2..] == exponent[2..] + rest;
    DigitRunOf(exponent[2..], rest);
    hide DigitRun;
  }

  // ---------------------------------------------------------------- what is written

  predicate Printable(s: string) {
    forall i :: 0 <= i < |s| ==> ' ' <= s[i]
  }

  lemma {:induction false} EscapedIsPrintable(s: string)
    ensures Printable(EscapeAll(s))
  {
    hide Escape;
    if s != "" {
      EscapeIsPrintable(s[0]);
      EscapedIsPrintable(s[1..]);
    }
  }

  lemma EscapeIsPrintable(c: char)
    ensures Printable(Escape(c))
  {
    if c < ' ' {
      HexIsPrintable(c as int / 16);
      HexIsPrintable(c as int % 16);
    }
  }

  lemma HexIsPrintable(d: int)
    requires 0 <= d < 16
    ensures ' ' <= HexChar(d)
  {
  }

  lemma NumberIsPrintable(n: int)
    ensures Printable(ToString(n))
  {
  }

  /** Serialized text is proper JSON as far as control characters go: none is left in it (RFC 8259, section 7). */
  lemma {:induction false} SerializedIsPrintable(fp: Doubles, v: Value)
    requires FloatFree(v)
    ensures Printable(Serialize(fp, v))
    decreases v, 1
  {
    hide EscapeAll, ToString, SerializeElements, SerializeMembers, Printable;
    WordsArePrintable();
    match v
    case Integer(n) => NumberIsPrintable(n);
    case String(s) =>
      EscapedIsPrintable(s);
      Between("\"", EscapeAll(s), "\"");
    case Array(es) =>
      ElementsArePrintable(fp, es);
      Between("[", SerializeElements(fp, es), "]");
    case Object(ms) =>
      MembersArePrintable(fp, ms);
      Between("{", SerializeMembers(fp, ms), "}");
    case _ =>
  }

  lemma WordsArePrintable()
    ensures Printable("null") && Printable("true") && Printable("false") && Printable("") && Printable(",") && Printable(":")
    ensures Printable("[") && Printable("]") && Printable("{") && Printable("}") && Printable("\"")
  {
  }

  lemma Between(open: string, s: string, close: string)
    requires Printable(open) && Printable(s) && Printable(close)
    ensures Printable(open + s + close) && Printable(open + s) && Printable(s + close)
  {
  }

  lemma {:induction false} ElementsArePrintable(fp: Doubles, es: seq<Value>)
    requires forall i :: 0 <= i < |es| ==> FloatFree(es[i])
    ensures Printable(SerializeElements(fp, es))
    decreases es, 0
  {
    hide Serialize, FloatFree, Printable;
    WordsArePrintable();
    if es != [] {
      SerializedIsPrintable(fp, es[0]);
      ElementsArePrintable(fp, es[1..]);
      var first, more := Serialize(fp, es[0]), SerializeElements(fp, es[1..]);
      Between(first, ",", more);
      Between(first, "", "," + more);
      assert first + "" == first;
    }
  }

  lemma {:induction false} MembersArePrintable(fp: Doubles, ms: seq<Member>)
    requires forall i :: 0 <= i < |ms| ==> FloatFree(ms[i].value)
    ensures Printable(SerializeMembers(fp, ms))
    decreases ms, 0
  {
    hide Serialize, FloatFree, EscapeAll, Printable;
    WordsArePrintable();
    if ms != [] {
      EscapedIsPrintable(ms[0].key);
      SerializedIsPrintable(fp, ms[0].value);
      MembersArePrintable(fp, ms[1..]);
      Between("\"", EscapeAll(ms[0].key), "\"");
      Between(Quote(ms[0].key), ":", Serialize(fp, ms[0].value));
      var first, more := SerializeMember(fp, ms[0]), SerializeMembers(fp, ms[1..]);
      Between(first, ",", more);
      Between(first, "", "," + more);
      assert first + "" == first;
    }
  }
}
