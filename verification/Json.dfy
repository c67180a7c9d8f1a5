/**
 JSON values and their serialization.

 A value is what a `JsonValue` holds. An object is an ordered list of members. `Float` keeps the
 token it was read from: the gateway's floating point arithmetic is not modelled, and results
 that would depend on it ask for `FloatFree` values.
 */
module Json {
  import opened Text

  datatype Member = Member(key: string, value: Value)

  datatype Value =
    | Null
    | Boolean(flag: bool)
    | Integer(number: int)
    | Float(token: string)
    | String(text: string)
    | Array(elements: seq<Value>)
    | Object(members: seq<Member>)

  const BACKSPACE := 8 as char
  const FORM_FEED := 12 as char

  // ---------------------------------------------------------------- accessors

  /** The position of `key` in the member list, or its length when absent. */
  function IndexOf(members: seq<Member>, key: string): (i: nat)
    ensures i <= |members|
    ensures i < |members| ==> members[i].key == key
    ensures forall j :: 0 <= j < i ==> members[j].key != key
  {
    if members == [] || members[0].key == key then 0 else 1 + IndexOf(members[1..], key)
  }

  predicate Has(v: Value, key: string) {
    v.Object? && IndexOf(v.members, key) < |v.members|
  }

  /** `GetMember`: the null value when `v` is no object or has no such member. */
  function MemberOf(v: Value, key: string): Value {
    if Has(v, key) then v.members[IndexOf(v.members, key)].value else Null
  }

  function TextOf(v: Value): string {
    if v.String? then v.text else ""
  }

  function NumberOf(v: Value): int {
    if v.Integer? then v.number else 0
  }

  function FlagOf(v: Value): bool {
    v.Boolean? && v.flag
  }

  /** `SetMember` on an object: overwrite in place, or append. */
  function SetMember(members: seq<Member>, key: string, value: Value): (r: seq<Member>) {
    var i := IndexOf(members, key);
    if i < |members| then members[i := Member(key, value)] else members + [Member(key, value)]
  }

  predicate UniqueKeys(members: seq<Member>) {
    forall i, j :: 0 <= i < j < |members| ==> members[i].key != members[j].key
  }

  lemma SetMemberKeepsUnique(members: seq<Member>, key: string, value: Value)
    requires UniqueKeys(members)
    ensures UniqueKeys(SetMember(members, key, value))
  {
  }

  /** Last value wins, first position kept, every other key untouched. */
  lemma SetMemberMeaning(members: seq<Member>, key: string, value: Value, other: string)
    ensures var r := SetMember(members, key, value);
            && MemberOf(Object(r), other) == (if other == key then value else MemberOf(Object(members), other))
            && (Has(Object(r), other) <==> other == key || Has(Object(members), other))
            && (Has(Object(members), other) ==> IndexOf(r, other) == IndexOf(members, other))
  {
    var r := SetMember(members, key, value);
    var i := IndexOf(members, key);
    var j := IndexOf(members, other);
    forall k | 0 <= k < |members| ensures r[k].key == members[k].key {}
    if j < |members| {
      assert r[j].key == other;
    }
    var k := IndexOf(r, other);
    if j < |members| {
      assert k <= j && !(k < j);
    } else if other == key {
      assert r[|members|].key == key;
      assert k == |members|;
    }
  }

  /** A key that is not there yet is appended. */
  lemma SetFreshMember(acc: seq<Member>, ms: seq<Member>)
    requires ms != [] && UniqueKeys(acc + ms)
    ensures SetMember(acc, ms[0].key, ms[0].value) == acc + [ms[0]]
  {
    forall j | 0 <= j < |acc| ensures acc[j].key != ms[0].key {
      assert (acc + ms)[j] == acc[j] && (acc + ms)[|acc|] == ms[0];
    }
  }

  // ---------------------------------------------------------------- well-formed values

  /** Integers fit 64 bits, and the keys of every object are unique. */
  predicate Sound(v: Value) {
    match v
    case Integer(n) => IsInt64(n)
    case Array(es) => forall i :: 0 <= i < |es| ==> Sound(es[i])
    case Object(ms) => UniqueKeys(ms) && forall i :: 0 <= i < |ms| ==> Sound(ms[i].value)
    case _ => true
  }

  /** No floating point number anywhere. */
  predicate FloatFree(v: Value) {
    match v
    case Float(_) => false
    case Array(es) => forall i :: 0 <= i < |es| ==> FloatFree(es[i])
    case Object(ms) => forall i :: 0 <= i < |ms| ==> FloatFree(ms[i].value)
    case _ => true
  }

  // ---------------------------------------------------------------- serialization

  /**
   What the C++ library does with floating point tokens: which of those with a mantissa digit
   `std::stod` converts without a range error, and how the number it converts a token to is printed.
   Everything is proved for every such library.
   */
  datatype Doubles = Doubles(converts: string -> bool, prints: string -> string)

  /** How `SerializeString` writes one character. */
  function Escape(c: char): (s: string)
    ensures |s| > 0
  {
    if c == '"' then "\\\""
    else if c == '\\' then "\\\\"
    else if c == BACKSPACE then "\\b"
    else if c == FORM_FEED then "\\f"
    else if c == '\n' then "\\n"
    else if c == '\r' then "\\r"
    else if c == '\t' then "\\t"
    else if c < ' ' then "\\u00" + [HexChar(c as int / 16), HexChar(c as int % 16)]
    else [c]
  }

  function EscapeAll(s: string): string {
    if s == "" then "" else Escape(s[0]) + EscapeAll(s[1..])
  }

  function Quote(s: string): string {
    "\"" + EscapeAll(s) + "\""
  }

  function Serialize(fp: Doubles, v: Value): string
    decreases v, 1
  {
    match v
    case Null => "null"
    case Boolean(b) => if b then "true" else "false"
    case Integer(n) => ToString(n)
    case Float(t) => fp.prints(t)
    case String(s) => Quote(s)
    case Array(es) => "[" + SerializeElements(fp, es) + "]"
    case Object(ms) => "{" + SerializeMembers(fp, ms) + "}"
  }

  function SerializeElements(fp: Doubles, es: seq<Value>): string
    decreases es, 0
  {
    if es == [] then ""
    else Serialize(fp, es[0]) + (if |es| == 1 then "" else "," + SerializeElements(fp, es[1..]))
  }

  function SerializeMember(fp: Doubles, m: Member): string
    decreases m, 2
  {
    Quote(m.key) + ":" + Serialize(fp, m.value)
  }

  function SerializeMembers(fp: Doubles, ms: seq<Member>): string
    decreases ms, 0
  {
    if ms == [] then ""
    else SerializeMember(fp, ms[0]) + (if |ms| == 1 then "" else "," + SerializeMembers(fp, ms[1..]))
  }
}
