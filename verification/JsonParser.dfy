/**
 The parser and the serializer as the program runs them: a cursor that moves over the input, and
 loops that append to a result. Each method is proved to compute the function that specifies it
 (`JsonReader`, `Json.Serialize`), so everything proved of those functions holds of the program.
 */
module JsonParsing {
  import opened Text
  import opened Json
  import opened JsonReader

  /** How a parse ends: with a value, with a recorded error, or by an exception of the library. */
  datatype Verdict = Accepted | Rejected | Thrown

  class JsonParser {
    const fp: Doubles
    var input: string
    var position: nat
    var errorMessage: string
    var errorPosition: nat

    constructor (fp: Doubles)
      ensures this.fp == fp
      ensures position == 0 && input == "" && errorMessage == "" && errorPosition == 0
    {
      this.fp := fp;
      input, position, errorMessage, errorPosition := "", 0, "", 0;
    }

    ghost predicate Valid()
      reads this
    {
      position <= |input|
    }

    /** The text still to be read. */
    ghost function Unread(): string
      reads this
      requires Valid()
    {
      input[position..]
    }

    /** The verdict, value and new state are what the specification says of the text that was unread. */
    twostate predicate Does<T>(spec: Parsed<T>, verdict: Verdict, value: T)
      reads this
    {
      && Valid() && input == old(input) && position >= old(position)
      && match spec
         case Ok(v, rest) => verdict == Accepted && value == v && Unread() == rest
         case Fail(m, left) =>
           verdict == Rejected && errorMessage == m && left <= |input| && errorPosition == |input| - left
         case Throw => verdict == Thrown
    }

    method SetError(message: string)
      modifies this`errorMessage, this`errorPosition
      ensures errorMessage == message && errorPosition == position
    {
      errorMessage, errorPosition := message, position;
    }

    method SkipWhitespace()
      requires Valid()
      modifies this`position
      ensures Valid() && position >= old(position)
      ensures Unread() == SkipSpace(old(Unread()))
    {
      while position < |input| && IsSpace(input[position])
        invariant old(position) <= position <= |input|
        invariant SkipSpace(input[position..]) == SkipSpace(old(Unread()))
      {
        position := position + 1;
      }
    }

    method ParseNull() returns (verdict: Verdict, value: Value)
      requires Valid()
      modifies this
      ensures Does(ReadNull(old(Unread())), verdict, value)
    {
      value := Null;
      if position + 4 <= |input| && input[position..position + 4] == "null" {
        assert Unread()[..4] == input[position..position + 4];
        position := position + 4;
        verdict := Accepted;
      } else {
        assert |Unread()| >= 4 ==> Unread()[..4] == input[position..position + 4];
        SetError("Invalid null value");
        verdict := Rejected;
      }
    }

    method ParseBoolean() returns (verdict: Verdict, value: Value)
      requires Valid()
      modifies this
      ensures Does(ReadBoolean(old(Unread())), verdict, value)
    {
      value := Null;
      ghost var s := Unread();
      assert |s| >= 4 ==> s[..4] == input[position..position + 4];
      assert |s| >= 5 ==> s[..5] == input[position..position + 5];
      if position + 4 <= |input| && input[position..position + 4] == "true" {
        value := Boolean(true);
        position := position + 4;
        verdict := Accepted;
      } else if position + 5 <= |input| && input[position..position + 5] == "false" {
        value := Boolean(false);
        position := position + 5;
        verdict := Accepted;
      } else {
        SetError("Invalid boolean value");
        verdict := Rejected;
      }
    }

    method SkipDigits()
      requires Valid()
      modifies this`position
      ensures Valid()
      ensures position == old(position) + DigitRun(old(Unread()))
    {
      while position < |input| && IsDigit(input[position])
        invariant old(position) <= position <= |input|
        invariant position + DigitRun(input[position..]) == old(position) + DigitRun(old(Unread()))
      {
        assert input[position..][1..] == input[position + 1..];
        position := position + 1;
      }
    }

    /** Moves past a number token and says whether it is a floating point token. */
    method ScanNumber() returns (isFloat: bool)
      requires Valid()
      modifies this`position
      ensures Valid()
      ensures (position - old(position), isFloat) == NumberEnd(old(Unread()))
    {
      hide DigitRun, IntegerLength, FractionLength, ExponentLength;
      ghost var s := Unread();
      SkipInteger();
      ghost var b := IntegerLength(s);
      assert Unread() == s[b..];
      var fraction := SkipFraction();
      ghost var c := b + FractionLength(s[b..]);
      assert Unread() == s[c..];
      var exponent := SkipExponent();
      isFloat := fraction || exponent;
    }

    method SkipInteger()
      requires Valid()
      modifies this`position
      ensures Valid() && position == old(position) + IntegerLength(old(Unread()))
    {
      ghost var s := Unread();
      if position < |input| && input[position] == '-' {
        position := position + 1;
        assert Unread() == s[1..];
      }
      SkipDigits();
    }

    method SkipFraction() returns (found: bool)
      requires Valid()
      modifies this`position
      ensures Valid() && position == old(position) + FractionLength(old(Unread()))
      ensures found <==> position != old(position)
    {
      ghost var s := Unread();
      found := position < |input| && input[position] == '.';
      if found {
        position := position + 1;
        assert Unread() == s[1..];
        SkipDigits();
      }
    }

    method SkipExponent() returns (found: bool)
      requires Valid()
      modifies this`position
      ensures Valid() && position == old(position) + ExponentLength(old(Unread()))
      ensures found <==> position != old(position)
    {
      ghost var s := Unread();
      found := position < |input| && (input[position] == 'e' || input[position] == 'E');
      if found {
        position := position + 1;
        if position < |input| && (input[position] == '+' || input[position] == '-') {
          position := position + 1;
        }
        assert Unread() == s[position - old(position)..];
        SkipDigits();
      }
    }

    method ParseNumber() returns (verdict: Verdict, value: Value)
      requires Valid()
      modifies this
      ensures Does(ReadNumber(fp, old(Unread())), verdict, value)
    {
      hide NumberEnd;
      value := Null;
      ghost var s := Unread();
      var start := position;
      var isFloat := ScanNumber();
      if position > start {
        var token := input[start..position];
        assert token == s[..position - start];
        if isFloat {
          if HasMantissaDigit(token) && fp.converts(token) {
            value, verdict := Float(token), Accepted;
          } else {
            verdict := Thrown;
          }
        } else {
          IntegerTokenEnd(s);
          var number := Stoll(token);
          if number.Some? {
            value, verdict := Integer(number.value), Accepted;
          } else {
            verdict := Thrown;
          }
        }
      } else {
        SetError("Invalid number");
        verdict := Rejected;
      }
    }

    /** The escape sequence at the cursor; `value` is the string read so far. */
    method ParseEscape(value: string) returns (verdict: Verdict, value': string)
      requires Valid() && position < |input| && input[position] == '\\'
      modifies this
      ensures Valid() && input == old(input)
      ensures verdict == Accepted ==>
                position > old(position) && ReadChars(old(Unread()), value) == ReadChars(Unread(), value')
      ensures verdict != Accepted ==> Does(ReadChars(old(Unread()), value), verdict, value')
    {
      ghost var s := Unread();
      value' := value;
      verdict := Accepted;
      position := position + 1;
      if position < |input| {
        var escaped := input[position];
        if ShortEscape(escaped).Some? {
          value' := value + [ShortEscape(escaped).value];
        } else if escaped == 'u' {
          if position + 4 < |input| {
            var hex := input[position + 1..position + 5];
            assert |s| > 5 && s[2..6] == hex;
            var code := ReadHex(hex);
            if code.None? {
              return Thrown, value;
            }
            value' := value + CodeBytes(code.value % 0x1_0000_0000);
            position := position + 4;
          } else {
            SetError("Invalid unicode escape");
            verdict := Rejected;
          }
        } else {
          SetError("Invalid escape character");
          verdict := Rejected;
        }
        position := position + 1;
        assert Unread() == s[position - old(position)..];
      } else {
        SetError("Unexpected end of string");
        verdict := Rejected;
      }
    }

    method ParseString() returns (verdict: Verdict, value: string)
      requires Valid()
      modifies this
      ensures Does(ReadString(old(Unread())), verdict, value)
    {
      value := "";
      if position < |input| && input[position] == '"' {
        position := position + 1;
        verdict := Accepted;
        while position < |input| && input[position] != '"' && verdict == Accepted
          invariant Valid() && input == old(input) && verdict != Thrown
          invariant verdict == Accepted ==> ReadString(old(Unread())) == ReadChars(Unread(), value)
          invariant verdict == Rejected ==> Does(ReadString(old(Unread())), verdict, value)
          decreases if verdict == Accepted then |input| - position + 1 else 0
        {
          hide CodeBytes, ReadHex, ShortEscape;
          ghost var s := Unread();
          if input[position] == '\\' {
            verdict, value := ParseEscape(value);
            if verdict == Thrown {
              return;
            }
          } else {
            value := value + [input[position]];
            position := position + 1;
            assert Unread() == s[1..];
          }
        }
        if verdict == Accepted && position < |input| && input[position] == '"' {
          position := position + 1;
        } else if verdict == Accepted {
          SetError("Unterminated string");
          verdict := Rejected;
        }
      } else {
        SetError("Expected string");
        verdict := Rejected;
      }
    }

    method ParseStringValue() returns (verdict: Verdict, value: Value)
      requires Valid()
      requires position < |input| && input[position] == '"'
      modifies this
      ensures Does(ReadValue(fp, old(Unread())), verdict, value)
    {
      var text;
      verdict, text := ParseString();
      value := String(text);
      assert SkipSpace(old(Unread())) == old(Unread());
    }

    method ParseValue() returns (verdict: Verdict, value: Value)
      requires Valid()
      modifies this
      ensures Does(ReadValue(fp, old(Unread())), verdict, value)
      decreases |input| - position, 2
    {
      ghost var text := Unread();
      value := Null;
      SkipWhitespace();
      ghost var s := Unread();
      if position < |input| {
        var current := input[position];
        if current == 'n' {
          verdict, value := ParseNull();
        } else if current == 't' || current == 'f' {
          verdict, value := ParseBoolean();
        } else if current == '-' || '0' <= current <= '9' {
          verdict, value := ParseNumber();
        } else if current == '"' {
          verdict, value := ParseStringValue();
          ReadValueSkips(fp, text);
        } else if current == '[' {
          verdict, value := ParseArray();
        } else if current == '{' {
          verdict, value := ParseObject();
        } else {
          SetError("Unexpected character");
          verdict := Rejected;
        }
      } else {
        SetError("Unexpected end of input");
        verdict := Rejected;
      }
    }

    method ParseArray() returns (verdict: Verdict, value: Value)
      requires Valid()
      requires position < |input| && input[position] == '['
      modifies this
      ensures Does(ReadArray(fp, old(Unread())), verdict, value)
      decreases |input| - position, 1
    {
      hide ReadElements;
      ghost var s := Unread();
      position := position + 1;
      assert Unread() == s[1..];
      SkipWhitespace();
      if position < |input| && input[position] == ']' {
        position := position + 1;
        return Accepted, Array([]);
      }
      var elements, finished := [], false;
      verdict := Accepted;
      while !finished
        invariant Valid() && input == old(input) && old(position) < position
        invariant !finished ==> ReadArray(fp, s) == ReadElements(fp, Unread(), elements)
        invariant finished ==> Does(ReadArray(fp, s), verdict, Array(elements))
        decreases if finished then 0 else |input| - position + 1
      {
        verdict, elements, finished := ParseElement(elements);
      }
      value := Array(elements);
    }

    /** One turn of the loop over the elements of an array; `finished` when the loop ends. */
    method ParseElement(elements: seq<Value>) returns (verdict: Verdict, elements': seq<Value>, finished: bool)
      requires Valid()
      modifies this
      ensures Valid() && input == old(input) && position >= old(position)
      ensures !finished ==>
                position > old(position)
                && ReadElements(fp, old(Unread()), elements) == ReadElements(fp, Unread(), elements')
      ensures finished ==> Does(ReadElements(fp, old(Unread()), elements), verdict, Array(elements'))
      decreases |input| - position, 3
    {
      hide ReadValue, SkipSpace;
      elements', finished := elements, true;
      if position == |input| {
        return Accepted, elements, true;
      }
      SkipWhitespace();
      var element;
      verdict, element := ParseValue();
      if verdict == Accepted {
        elements' := elements + [element];
        SkipWhitespace();
        ghost var next := Unread();
        if position < |input| && input[position] == ',' {
          position := position + 1;
          assert Unread() == next[1..];
          finished := false;
        } else if position < |input| && input[position] == ']' {
          position := position + 1;
          assert Unread() == next[1..];
        } else {
          SetError("Expected ',' or ']' in array");
          verdict := Rejected;
        }
      }
    }

    method ParseObject() returns (verdict: Verdict, value: Value)
      requires Valid()
      requires position < |input| && input[position] == '{'
      modifies this
      ensures Does(ReadObject(fp, old(Unread())), verdict, value)
      decreases |input| - position, 1
    {
      hide ReadMembers;
      ghost var s := Unread();
      position := position + 1;
      assert Unread() == s[1..];
      SkipWhitespace();
      if position < |input| && input[position] == '}' {
        position := position + 1;
        return Accepted, Object([]);
      }
      var members, finished := [], false;
      verdict := Accepted;
      while !finished
        invariant Valid() && input == old(input) && old(position) < position
        invariant !finished ==> ReadObject(fp, s) == ReadMembers(fp, Unread(), members)
        invariant finished ==> Does(ReadObject(fp, s), verdict, Object(members))
        decreases if finished then 0 else |input| - position + 1
      {
        verdict, members, finished := ParseNextMember(members);
      }
      value := Object(members);
    }

    /** One turn of the loop over the members of an object; `finished` when the loop ends. */
    method ParseNextMember(members: seq<Member>) returns (verdict: Verdict, members': seq<Member>, finished: bool)
      requires Valid()
      modifies this
      ensures Valid() && input == old(input) && position >= old(position)
      ensures !finished ==>
                position > old(position)
                && ReadMembers(fp, old(Unread()), members) == ReadMembers(fp, Unread(), members')
      ensures finished ==> Does(ReadMembers(fp, old(Unread()), members), verdict, Object(members'))
      decreases |input| - position, 4
    {
      hide ReadMember, SetMember, SkipSpace;
      members', finished := members, true;
      if position == |input| {
        return Accepted, members, true;
      }
      var member;
      verdict, member := ParseMember();
      if verdict == Accepted {
        members' := SetMember(members, member.key, member.value);
        SkipWhitespace();
        ghost var next := Unread();
        if position < |input| && input[position] == ',' {
          position := position + 1;
          assert Unread() == next[1..];
          finished := false;
        } else if position < |input| && input[position] == '}' {
          position := position + 1;
          assert Unread() == next[1..];
        } else {
          SetError("Expected ',' or '}' in object");
          verdict := Rejected;
        }
      }
    }

    /** A key, a colon and a value: the first half of the loop body of `ParseObject`. */
    method ParseMember() returns (verdict: Verdict, member: Member)
      requires Valid()
      modifies this
      ensures Does(ReadMember(fp, old(Unread())), verdict, member)
      decreases |input| - position, 3
    {
      hide ReadString, ReadValue, SkipSpace;
      member := Member("", Null);
      SkipWhitespace();
      var key;
      verdict, key := ParseString();
      if verdict == Accepted {
        SkipWhitespace();
        ghost var colon := Unread();
        if position < |input| && input[position] == ':' {
          position := position + 1;
          assert Unread() == colon[1..];
          SkipWhitespace();
          var value;
          verdict, value := ParseValue();
          member := Member(key, value);
        } else {
          SetError("Expected ':' after object key");
          verdict := Rejected;
        }
      }
    }

    method Parse(text: string) returns (verdict: Verdict, value: Value)
      modifies this
      ensures Valid() && input == text
      ensures match ReadText(fp, text)
              case Ok(v, rest) => verdict == Accepted && value == v && Unread() == rest
              case Fail(m, left) =>
                verdict == Rejected && errorMessage == m && left <= |text| && errorPosition == |text| - left
              case Throw => verdict == Thrown
    {
      input, position, errorMessage, errorPosition := text, 0, "", 0;
      assert Unread() == text;
      value := Null;
      SkipWhitespace();
      if position < |input| {
        verdict, value := ParseValue();
        if verdict == Accepted {
          SkipWhitespace();
        }
      } else {
        SetError("Empty input");
        verdict := Rejected;
      }
    }
  }

  // ---------------------------------------------------------------- serialization

  method SerializeString(text: string) returns (output: string)
    ensures output == Quote(text)
  {
    output := "\"";
    for i := 0 to |text|
      invariant output + EscapeAll(text[i..]) == "\"" + EscapeAll(text)
    {
      assert text[i..][0] == text[i] && text[i..][1..] == text[i + 1..];
      assert output + EscapeAll(text[i..]) == output + Escape(text[i]) + EscapeAll(text[i + 1..]);
      output := output + Escape(text[i]);
    }
    output := output + "\"";
  }

  /** What the loop over an array still has to append before element `i`. */
  ghost function ElementsFrom(fp: Doubles, es: seq<Value>, i: nat): string
    requires i <= |es|
  {
    if i == |es| then "" else (if i > 0 then "," else "") + SerializeElements(fp, es[i..])
  }

  ghost function MembersFrom(fp: Doubles, ms: seq<Member>, i: nat): string
    requires i <= |ms|
  {
    if i == |ms| then "" else (if i > 0 then "," else "") + SerializeMembers(fp, ms[i..])
  }

  lemma ElementsFromStep(fp: Doubles, es: seq<Value>, i: nat)
    requires i < |es|
    ensures ElementsFrom(fp, es, i) == (if i > 0 then "," else "") + Serialize(fp, es[i]) + ElementsFrom(fp, es, i + 1)
  {
    assert es[i..][0] == es[i] && es[i..][1..] == es[i + 1..];
  }

  lemma MembersFromStep(fp: Doubles, ms: seq<Member>, i: nat)
    requires i < |ms|
    ensures MembersFrom(fp, ms, i) == (if i > 0 then "," else "") + SerializeMember(fp, ms[i]) + MembersFrom(fp, ms, i + 1)
  {
    assert ms[i..][0] == ms[i] && ms[i..][1..] == ms[i + 1..];
  }

  lemma SerializeMemberIs(fp: Doubles, m: Member)
    ensures SerializeMember(fp, m) == Quote(m.key) + ":" + Serialize(fp, m.value)
  {
  }

  lemma Regroup(result: string, separator: string, part: string, more: string)
    ensures (if separator == "" then result else result + separator) + part + more
         == result + (separator + part + more)
  {
  }

  method SerializeValue(fp: Doubles, v: Value) returns (result: string)
    ensures result == Serialize(fp, v)
    decreases v
  {
    match v
    case Null => result := "null";
    case Boolean(b) => result := if b then "true" else "false";
    case Integer(n) => result := ToString(n);
    case Float(t) => result := fp.prints(t);
    case String(s) => result := SerializeString(s);
    case Array(es) => result := SerializeArray(fp, es);
    case Object(ms) => result := SerializeObject(fp, ms);
  }

  method SerializeArray(fp: Doubles, es: seq<Value>) returns (result: string)
    ensures result == Serialize(fp, Array(es))
    decreases es
  {
    result := "[";
    assert ElementsFrom(fp, es, 0) == SerializeElements(fp, es) by {
      assert es[0..] == es;
    }
    for i := 0 to |es|
      invariant result + ElementsFrom(fp, es, i) == "[" + SerializeElements(fp, es)
    {
      ElementsFromStep(fp, es, i);
      hide *;
      ghost var before := result;
      if i > 0 {
        result := result + ",";
      }
      var element := SerializeValue(fp, es[i]);
      result := result + element;
      Regroup(before, if i > 0 then "," else "", element, ElementsFrom(fp, es, i + 1));
    }
    result := result + "]";
  }

  method SerializeObject(fp: Doubles, ms: seq<Member>) returns (result: string)
    ensures result == Serialize(fp, Object(ms))
    decreases ms
  {
    result := "{";
    assert MembersFrom(fp, ms, 0) == SerializeMembers(fp, ms) by {
      assert ms[0..] == ms;
    }
    for i := 0 to |ms|
      invariant result + MembersFrom(fp, ms, i) == "{" + SerializeMembers(fp, ms)
    {
      MembersFromStep(fp, ms, i);
      hide *;
      ghost var before := result;
      if i > 0 {
        result := result + ",";
      }
      var key := SerializeString(ms[i].key);
      var value := SerializeValue(fp, ms[i].value);
      assert SerializeMember(fp, ms[i]) == key + ":" + value by {
        SerializeMemberIs(fp, ms[i]);
      }
      result := result + (key + ":" + value);
      Regroup(before, if i > 0 then "," else "", SerializeMember(fp, ms[i]), MembersFrom(fp, ms, i + 1));
    }
    result := result + "}";
  }
}
