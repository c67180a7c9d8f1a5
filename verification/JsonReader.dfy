/**
 What the JSON parser computes, as functions on the text still to be read.

 Each function takes the unread text and returns the value and the text left over, the error
 message with the number of characters left when it was recorded, or `Throw` where the C++
 library throws out of the parser. The functions follow the parser's branches one by one, so the
 parser is lenient where it is: `[`, `[1,` and `{` at the end of the input are accepted.
 */
module JsonReader {
  import opened Text
  import opened Json

  datatype Parsed<T> =
    | Ok(value: T, rest: string)
    | Fail(message: string, left: nat)
    | Throw

  // ---------------------------------------------------------------- strings

  function ShortEscape(e: char): Option<char> {
    if e == '"' || e == '\\' || e == '/' then Some(e)
    else if e == 'b' then Some(BACKSPACE)
    else if e == 'f' then Some(FORM_FEED)
    else if e == 'n' then Some('\n')
    else if e == 'r' then Some('\r')
    else if e == 't' then Some('\t')
    else None
  }

  /** The bytes written for the 32-bit number a `\u` escape was read as. */
  function CodeBytes(code: int): (s: string)
    requires 0 <= code < 0x1_0000_0000
    ensures IsBytes(s) && 1 <= |s| <= 3
  {
    if code < 0x80 then [code as char]
    else if code < 0x800 then
      [(0xC0 + code / 64 % 32) as char, (0x80 + code % 64) as char]
    else
      [(0xE0 + code / 4096 % 16) as char, (0x80 + code / 64 % 64) as char, (0x80 + code % 64) as char]
  }

  /** The loop of `ParseString`: `s` is the text after the opening quote, `acc` the value so far. */
  function ReadChars(s: string, acc: string): (r: Parsed<string>)
    ensures r.Ok? ==> |r.rest| < |s|
    ensures r.Fail? ==> r.left <= |s|
    decreases |s|
  {
    if s == "" then Fail("Unterminated string", 0)
    else if s[0] == '"' then Ok(acc, s[1..])
    else if s[0] == '\\' then
      if |s| == 1 then Fail("Unexpected end of string", 0)
      else if ShortEscape(s[1]).Some? then ReadChars(s[2..], acc + [ShortEscape(s[1]).value])
      else if s[1] == 'u' then
        if |s| > 5 then
          match ReadHex(s[2..6])
          case None => Throw
          case Some(n) => ReadChars(s[6..], acc + CodeBytes(n % 0x1_0000_0000))
        else Fail("Invalid unicode escape", |s| - 1)
      else Fail("Invalid escape character", |s| - 1)
    else ReadChars(s[1..], acc + [s[0]])
  }

  function ReadString(s: string): (r: Parsed<string>)
    ensures r.Ok? ==> |r.rest| < |s|
    ensures r.Fail? ==> r.left <= |s|
  {
    if s != "" && s[0] == '"' then ReadChars(s[1..], "") else Fail("Expected string", |s|)
  }

  // ---------------------------------------------------------------- numbers

  /** The length of the sign and the integer digits at the front of `s`. */
  function IntegerLength(s: string): (n: nat)
    ensures n <= |s|
    ensures s != "" && (s[0] == '-' || IsDigit(s[0])) ==> n > 0
  {
    if s != "" && s[0] == '-' then 1 + DigitRun(s[1..]) else DigitRun(s)
  }

  function FractionLength(s: string): (n: nat)
    ensures n <= |s|
  {
    if s != "" && s[0] == '.' then 1 + DigitRun(s[1..]) else 0
  }

  function ExponentLength(s: string): (n: nat)
    ensures n <= |s|
  {
    if s == "" || (s[0] != 'e' && s[0] != 'E') then 0
    else if |s| > 1 && (s[1] == '+' || s[1] == '-') then 2 + DigitRun(s[2..])
    else 1 + DigitRun(s[1..])
  }

  /** The end of the number token at the front of `s`, and whether it is a floating point token. */
  function NumberEnd(s: string): (r: (nat, bool))
    ensures r.0 <= |s|
    ensures s != "" && (s[0] == '-' || IsDigit(s[0])) ==> r.0 > 0
  {
    var b := IntegerLength(s);
    var c := b + FractionLength(s[b..]);
    var d := c + ExponentLength(s[c..]);
    (d, d != b)
  }

  /** A token of the form the integer scanner produces: an optional sign and digits. */
  predicate IsIntegerToken(t: string) {
    if t != "" && t[0] == '-' then AllDigits(t[1..]) else AllDigits(t)
  }

  /** `std::stoll` on an integer token; `None` where it throws. */
  function Stoll(t: string): (r: Option<int>)
    requires IsIntegerToken(t)
    ensures r.Some? ==> IsInt64(r.value)
  {
    var negative := t != "" && t[0] == '-';
    var digits := if negative then t[1..] else t;
    if digits == "" then None
    else
      var n: int := if negative then 0 - DecimalValue(digits) else DecimalValue(digits);
      if IsInt64(n) then Some(n) else None
  }

  /** `std::stod` finds something to convert in a token only if the mantissa has a digit. */
  predicate HasMantissaDigit(t: string) {
    exists i :: 0 <= i < |t| && IsDigit(t[i]) && forall j :: 0 <= j < i ==> t[j] == '-' || t[j] == '.'
  }

  lemma IntegerTokenEnd(s: string)
    ensures !NumberEnd(s).1 ==> IsIntegerToken(s[..NumberEnd(s).0])
  {
    var n := IntegerLength(s);
    if !NumberEnd(s).1 && s != "" && s[0] == '-' {
      assert s[..n][1..] == s[1..][..n - 1];
    }
  }

  function ReadNumber(fp: Doubles, s: string): (r: Parsed<Value>)
    ensures r.Ok? ==> |r.rest| <= |s|
    ensures r.Ok? && s != "" && (s[0] == '-' || IsDigit(s[0])) ==> |r.rest| < |s|
    ensures r.Fail? ==> r.left <= |s|
  {
    var (n, isFloat) := NumberEnd(s);
    var token := s[..n];
    if n == 0 then Fail("Invalid number", |s|)
    else if isFloat then
      if HasMantissaDigit(token) && fp.converts(token) then Ok(Float(token), s[n..]) else Throw
    else
      IntegerTokenEnd(s);
      match Stoll(token)
      case None => Throw
      case Some(v) => Ok(Integer(v), s[n..])
  }

  // ---------------------------------------------------------------- values

  function ReadNull(s: string): (r: Parsed<Value>)
    ensures r.Ok? ==> |r.rest| < |s|
    ensures r.Fail? ==> r.left <= |s|
  {
    if |s| >= 4 && s[..4] == "null" then Ok(Null, s[4..]) else Fail("Invalid null value", |s|)
  }

  function ReadBoolean(s: string): (r: Parsed<Value>)
    ensures r.Ok? ==> |r.rest| < |s|
    ensures r.Fail? ==> r.left <= |s|
  {
    if |s| >= 4 && s[..4] == "true" then Ok(Boolean(true), s[4..])
    else if |s| >= 5 && s[..5] == "false" then Ok(Boolean(false), s[5..])
    else Fail("Invalid boolean value", |s|)
  }

  function ReadValue(fp: Doubles, text: string): (r: Parsed<Value>)
    ensures r.Ok? ==> |r.rest| < |text|
    ensures r.Fail? ==> r.left <= |text|
    decreases |text|, 2
  {
    var s := SkipSpace(text);
    if s == "" then Fail("Unexpected end of input", 0)
    else if s[0] == 'n' then ReadNull(s)
    else if s[0] == 't' || s[0] == 'f' then ReadBoolean(s)
    else if s[0] == '-' || IsDigit(s[0]) then ReadNumber(fp, s)
    else if s[0] == '"' then
      match ReadString(s)
      case Ok(v, rest) => Ok(String(v), rest)
      case Fail(m, l) => Fail(m, l)
      case Throw => Throw
    else if s[0] == '[' then ReadArray(fp, s)
    else if s[0] == '{' then ReadObject(fp, s)
    else Fail("Unexpected character", |s|)
  }

  lemma ReadValueSkips(fp: Doubles, s: string)
    ensures ReadValue(fp, SkipSpace(s)) == ReadValue(fp, s)
  {
  }

  function ReadArray(fp: Doubles, s: string): (r: Parsed<Value>)
    requires s != ""
    ensures r.Ok? ==> |r.rest| < |s|
    ensures r.Fail? ==> r.left <= |s|
    decreases |s|, 1
  {
    var t := SkipSpace(s[1..]);
    if t != "" && t[0] == ']' then Ok(Array([]), t[1..]) else ReadElements(fp, t, [])
  }

  /** The loop of `ParseArray`, with the elements read so far. */
  function ReadElements(fp: Doubles, s: string, acc: seq<Value>): (r: Parsed<Value>)
    ensures r.Ok? ==> |r.rest| <= |s|
    ensures r.Fail? ==> r.left <= |s|
    decreases |s|, 3
  {
    if s == "" then Ok(Array(acc), s)
    else
      match ReadValue(fp, SkipSpace(s))
      case Fail(m, l) => Fail(m, l)
      case Throw => Throw
      case Ok(v, rest) =>
        var t := SkipSpace(rest);
        if t != "" && t[0] == ',' then ReadElements(fp, t[1..], acc + [v])
        else if t != "" && t[0] == ']' then Ok(Array(acc + [v]), t[1..])
        else Fail("Expected ',' or ']' in array", |t|)
  }

  function ReadObject(fp: Doubles, s: string): (r: Parsed<Value>)
    requires s != ""
    ensures r.Ok? ==> |r.rest| < |s|
    ensures r.Fail? ==> r.left <= |s|
    decreases |s|, 1
  {
    var t := SkipSpace(s[1..]);
    if t != "" && t[0] == '}' then Ok(Object([]), t[1..]) else ReadMembers(fp, t, [])
  }

  /** A key, a colon and a value: one turn of the loop of `ParseObject`. */
  function ReadMember(fp: Doubles, s: string): (r: Parsed<Member>)
    ensures r.Ok? ==> |r.rest| < |s|
    ensures r.Fail? ==> r.left <= |s|
    decreases |s|, 3
  {
    match ReadString(SkipSpace(s))
    case Fail(m, l) => Fail(m, l)
    case Throw => Throw
    case Ok(key, rest) =>
      var t := SkipSpace(rest);
      if t == "" || t[0] != ':' then Fail("Expected ':' after object key", |t|)
      else
        match ReadValue(fp, SkipSpace(t[1..]))
        case Fail(m, l) => Fail(m, l)
        case Throw => Throw
        case Ok(v, rest') => Ok(Member(key, v), rest')
  }

  /** The loop of `ParseObject`, with the members set so far. */
  function ReadMembers(fp: Doubles, s: string, acc: seq<Member>): (r: Parsed<Value>)
    ensures r.Ok? ==> |r.rest| <= |s|
    ensures r.Fail? ==> r.left <= |s|
    decreases |s|, 4
  {
    if s == "" then Ok(Object(acc), s)
    else
      match ReadMember(fp, s)
      case Fail(m, l) => Fail(m, l)
      case Throw => Throw
      case Ok(m, rest) =>
        var t := SkipSpace(rest);
        var acc' := SetMember(acc, m.key, m.value);
        if t != "" && t[0] == ',' then ReadMembers(fp, t[1..], acc')
        else if t != "" && t[0] == '}' then Ok(Object(acc'), t[1..])
        else Fail("Expected ',' or '}' in object", |t|)
  }

  /** `JsonParser::Parse`. Text after the value is accepted and left unread. */
  function ReadText(fp: Doubles, text: string): (r: Parsed<Value>)
    ensures r.Ok? ==> |r.rest| < |text|
  {
    var s := SkipSpace(text);
    if s == "" then Fail("Empty input", 0)
    else
      match ReadValue(fp, s)
      case Fail(m, l) => Fail(m, l)
      case Throw => Throw
      case Ok(v, rest) => Ok(v, SkipSpace(rest))
  }
}
