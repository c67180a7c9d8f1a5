/**
 Unpadded base64url (RFC 4648, section 5), decoded with a 32-bit accumulator that is never cleared.
 */
module Base64Url {
  import opened Text

  /** The character for a six-bit value. */
  function Symbol(v: int): (c: char)
    requires 0 <= v < 64
    ensures c as int < 128 && c != '='
  {
    if v < 26 then (v + 'A' as int) as char
    else if v < 52 then (v - 26 + 'a' as int) as char
    else if v < 62 then (v - 52 + '0' as int) as char
    else if v == 62 then '-'
    else '_'
  }

  /** The decoder's table: the six-bit value of a character, or -1. Plain base64 is read as well. */
  function Sextet(c: char): (v: int)
    ensures -1 <= v < 64
  {
    if 'A' <= c <= 'Z' then c as int - 'A' as int
    else if 'a' <= c <= 'z' then c as int - 'a' as int + 26
    else if '0' <= c <= '9' then c as int - '0' as int + 52
    else if c == '-' || c == '+' then 62
    else if c == '_' || c == '/' then 63
    else -1
  }

  lemma SymbolInverse(v: int)
    requires 0 <= v < 64
    ensures Sextet(Symbol(v)) == v
  {
  }

  const CAPITALS := "ABCDEFGHIJKLMNOPQRSTUVWXYZ"
  const SMALL_LETTERS := "abcdefghijklmnopqrstuvwxyz"
  const DIGITS := "0123456789"

  lemma CapitalIs(i: int)
    requires 0 <= i < 26
    ensures CAPITALS[i] as int == 65 + i
  {
  }

  lemma SmallLetterIs(i: int)
    requires 0 <= i < 26
    ensures SMALL_LETTERS[i] as int == 97 + i
  {
  }

  lemma DigitIs(i: int)
    requires 0 <= i < 10
    ensures DIGITS[i] as int == 48 + i
  {
  }

  /** The alphabet of RFC 4648, section 5; the one of section 4 is read as well, and nothing else. */
  lemma Alphabet(v: int)
    requires 0 <= v < 64
    ensures Symbol(v) == (CAPITALS + SMALL_LETTERS + DIGITS + "-_")[v]
    ensures Sextet((CAPITALS + SMALL_LETTERS + DIGITS + "+/")[v]) == v
  {
    if v < 26 {
      CapitalIs(v);
    } else if v < 52 {
      SmallLetterIs(v - 26);
    } else if v < 62 {
      DigitIs(v - 52);
    }
  }

  lemma OtherSymbols(c: char)
    requires Sextet(c) >= 0
    ensures c == Symbol(Sextet(c)) || (c == '+' && Sextet(c) == 62) || (c == '/' && Sextet(c) == 63)
  {
  }

  // ---------------------------------------------------------------- encoding

  /** Up to three bytes as one number, missing bytes as zero. */
  function Triple(data: string): (n: int)
    ensures 0 <= n < 0x100_0000
  {
    (if |data| > 0 then Octet(data[0]) * 0x1_0000 else 0) +
    (if |data| > 1 then Octet(data[1]) * 0x100 else 0) +
    (if |data| > 2 then Octet(data[2]) else 0)
  }

  /** The symbols of one group of at most three bytes. */
  function Group(data: string): (s: string)
    requires 1 <= |data|
    ensures |s| == if |data| >= 3 then 4 else |data| + 1
  {
    var n := Triple(data);
    [Symbol(n / 0x4_0000 % 64), Symbol(n / 0x1000 % 64)] +
    (if |data| > 1 then [Symbol(n / 0x40 % 64)] else []) +
    (if |data| > 2 then [Symbol(n % 64)] else [])
  }

  function Encode(data: string): (s: string)
    decreases |data|
  {
    if data == "" then ""
    else if |data| <= 3 then Group(data)
    else Group(data[..3]) + Encode(data[3..])
  }

  /** The exact length of an encoding: four symbols for three bytes, one more than the bytes left over. */
  function EncodedLength(n: nat): nat {
    4 * (n / 3) + (if n % 3 == 0 then 0 else n % 3 + 1)
  }

  lemma {:induction false} EncodeLength(data: string)
    ensures |Encode(data)| == EncodedLength(|data|)
    decreases |data|
  {
    if |data| > 3 {
      EncodeLength(data[3..]);
      assert (|data| - 3) / 3 == |data| / 3 - 1 && (|data| - 3) % 3 == |data| % 3;
    }
  }

  // ---------------------------------------------------------------- decoding

  /** `acc >> n` for the shifts the decoder makes. */
  function ShiftRight(acc: int, n: int): int {
    if n <= 0 then acc else if n == 2 then acc / 4 else acc / 16
  }

  /**
   The decoder's loop: a 32-bit accumulator, the number of bits in it not written out yet, and
   the bytes written so far. It stops at `=` and fails on a character outside the alphabet.
   */
  function DecodeFrom(s: string, acc: int, bits: int, written: string): Option<string> {
    if s == "" || s[0] == '=' then Some(written)
    else if Sextet(s[0]) < 0 then None
    else
      var acc' := (acc * 64 + Sextet(s[0])) % 0x1_0000_0000;
      if bits + 6 >= 8 then
        DecodeFrom(s[1..], acc', bits - 2, written + [(ShiftRight(acc', bits - 2) % 256) as char])
      else
        DecodeFrom(s[1..], acc', bits + 6, written)
  }

  function Decode(s: string): Option<string> {
    DecodeFrom(s, 0, 0, "")
  }

  // ---------------------------------------------------------------- the decoder undoes the encoder

  /** What the decoder does with one symbol, in terms of the bits that matter: the others never show. */
  lemma DecodeSymbol(v: int, rest: string, acc: int, bits: int, written: string)
    requires 0 <= v < 64 && 0 <= acc < 0x1_0000_0000
    ensures var acc' := (acc * 64 + v) % 0x1_0000_0000;
            && 0 <= acc' < 0x1_0000_0000
            && acc' % 64 == v
            && (bits == 0 ==> DecodeFrom([Symbol(v)] + rest, acc, bits, written) == DecodeFrom(rest, acc', 6, written))
            && (bits == 6 ==>
                  acc' % 0x1000 == acc % 64 * 64 + v
                  && DecodeFrom([Symbol(v)] + rest, acc, bits, written)
                     == DecodeFrom(rest, acc', 4, written + [(acc % 64 * 4 + v / 16) as char]))
            && (bits == 4 ==>
                  DecodeFrom([Symbol(v)] + rest, acc, bits, written)
                  == DecodeFrom(rest, acc', 2, written + [(acc % 16 * 16 + v / 4) as char]))
            && (bits == 2 ==>
                  DecodeFrom([Symbol(v)] + rest, acc, bits, written)
                  == DecodeFrom(rest, acc', 0, written + [(acc % 4 * 64 + v) as char]))
  {
    var s := [Symbol(v)] + rest;
    var acc' := (acc * 64 + v) % 0x1_0000_0000;
    SymbolInverse(v);
    assert s[0] == Symbol(v) && s[1..] == rest;
    LowBits(acc, v);
  }

  lemma LowBits(acc: int, v: int)
    requires 0 <= v < 64 && 0 <= acc < 0x1_0000_0000
    ensures var acc' := (acc * 64 + v) % 0x1_0000_0000;
            && acc' % 64 == v
            && acc' % 0x1000 == acc % 64 * 64 + v
            && acc' / 16 % 256 == acc % 64 * 4 + v / 16
            && acc' / 4 % 256 == acc % 16 * 16 + v / 4
            && acc' % 256 == acc % 4 * 64 + v
  {
    var acc' := (acc * 64 + v) % 0x1_0000_0000;
    var high, low := acc / 0x400_0000, acc % 0x400_0000;
    DivMod(high, 0x1_0000_0000, low * 64 + v);
    assert acc' == low * 64 + v;
    DivMod(low, 64, v);
    var h6, l6, h4, l4, h2, l2 := low / 64, low % 64, low / 16, low % 16, low / 4, low % 4;
    DivMod(high * 0x10_0000 + h6, 64, l6);
    DivMod(high * 0x40_0000 + h4, 16, l4);
    DivMod(high * 0x100_0000 + h2, 4, l2);
    assert acc % 64 == l6 && acc % 16 == l4 && acc % 4 == l2;
    DivMod(h6, 0x1000, l6 * 64 + v);
    DivMod(h6 * 256 + l6 * 4 + v / 16, 16, v % 16);
    DivMod(h6, 256, l6 * 4 + v / 16);
    DivMod(h4 * 256 + l4 * 16 + v / 4, 4, v % 4);
    DivMod(h4, 256, l4 * 16 + v / 4);
    DivMod(h2, 256, l2 * 64 + v);
  }

  /** The symbols of a group, one by one. */
  lemma GroupSymbols(data: string)
    requires 1 <= |data| <= 3 && IsBytes(data)
    ensures var a := data[0] as int;
            var b := if |data| > 1 then data[1] as int else 0;
            var c := if |data| > 2 then data[2] as int else 0;
            Group(data) == [Symbol(a / 4), Symbol(a % 4 * 16 + b / 16)]
              + (if |data| > 1 then [Symbol(b % 16 * 4 + c / 64)] else [])
              + (if |data| > 2 then [Symbol(c % 64)] else [])
  {
    var a := data[0] as int;
    var b := if |data| > 1 then data[1] as int else 0;
    var c := if |data| > 2 then data[2] as int else 0;
    SplitTriple(a, b, c);
    assert Triple(data) == a * 0x1_0000 + b * 0x100 + c;
  }

  lemma SplitTriple(a: int, b: int, c: int)
    requires 0 <= a < 256 && 0 <= b < 256 && 0 <= c < 256
    ensures var n := a * 0x1_0000 + b * 0x100 + c;
            && n / 0x4_0000 % 64 == a / 4
            && n / 0x1000 % 64 == a % 4 * 16 + b / 16
            && n / 0x40 % 64 == b % 16 * 4 + c / 64
            && n % 64 == c % 64
  {
    DivMod(a * 0x400 + b * 4 + c / 64, 64, c % 64);
    DivMod(a * 16 + b / 16, 64, b % 16 * 4 + c / 64);
    DivMod(a * 16 + b / 16, 0x1000, b % 16 * 0x100 + c);
    DivMod(a / 4, 64, a % 4 * 16 + b / 16);
    DivMod(a / 4, 0x4_0000, a % 4 * 0x1_0000 + b * 0x100 + c);
  }

  /** The four symbols of three bytes carry all their bits. */
  lemma Recombine(a: int, b: int, c: int)
    requires 0 <= a < 256 && 0 <= b < 256 && 0 <= c < 256
    ensures var v1, v2, v3, v4 := a / 4, a % 4 * 16 + b / 16, b % 16 * 4 + c / 64, c % 64;
            && 0 <= v1 < 64 && 0 <= v2 < 64 && 0 <= v3 < 64 && 0 <= v4 < 64
            && v1 * 4 + v2 / 16 == a
            && v2 % 16 * 16 + v3 / 4 == b
            && v3 % 4 * 64 + v4 == c
  {
    DivMod(a % 4, 16, b / 16);
    DivMod(b % 16, 4, c / 64);
  }

  /** The low bits of the accumulator are those of the last symbol. */
  lemma LastSymbol(acc: int, v: int)
    requires 0 <= v < 64 && acc % 64 == v
    ensures acc % 16 == v % 16 && acc % 4 == v % 4
  {
    DivMod(acc / 64 * 4 + v / 16, 16, v % 16);
    DivMod(acc / 64 * 16 + v / 4, 4, v % 4);
  }

  lemma DecodeGroup(data: string, rest: string, acc: int, written: string) returns (acc': int)
    requires |data| == 3 && IsBytes(data) && 0 <= acc < 0x1_0000_0000
    ensures 0 <= acc' < 0x1_0000_0000
    ensures DecodeFrom(Group(data) + rest, acc, 0, written) == DecodeFrom(rest, acc', 0, written + data)
  {
    hide DecodeFrom, Group, Symbol;
    GroupSymbols(data);
    var a, b, c := data[0] as int, data[1] as int, data[2] as int;
    var v1, v2, v3, v4 := a / 4, a % 4 * 16 + b / 16, b % 16 * 4 + c / 64, c % 64;
    Recombine(a, b, c);
    var r3 := [Symbol(v4)] + rest;
    var r2 := [Symbol(v3)] + r3;
    var r1 := [Symbol(v2)] + r2;
    assert Group(data) + rest == [Symbol(v1)] + r1;
    DecodeSymbol(v1, r1, acc, 0, written);
    var acc1 := (acc * 64 + v1) % 0x1_0000_0000;
    DecodeSymbol(v2, r2, acc1, 6, written);
    var acc2 := (acc1 * 64 + v2) % 0x1_0000_0000;
    DecodeSymbol(v3, r3, acc2, 4, written + [a as char]);
    var acc3 := (acc2 * 64 + v3) % 0x1_0000_0000;
    LastSymbol(acc2, v2);
    LastSymbol(acc3, v3);
    DecodeSymbol(v4, rest, acc3, 2, written + [a as char] + [b as char]);
    acc' := (acc3 * 64 + v4) % 0x1_0000_0000;
    assert written + [a as char] + [b as char] + [c as char] == written + data;
  }

  lemma DecodeLastGroup(data: string, acc: int, written: string)
    requires 1 <= |data| <= 2 && IsBytes(data) && 0 <= acc < 0x1_0000_0000
    ensures DecodeFrom(Group(data), acc, 0, written) == Some(written + data)
  {
    NothingLeft(written);
    hide DecodeFrom, Group, Symbol;
    GroupSymbols(data);
    var a := data[0] as int;
    var b := if |data| > 1 then data[1] as int else 0;
    var v1, v2, v3 := a / 4, a % 4 * 16 + b / 16, b % 16 * 4;
    Recombine(a, b, 0);
    var r2 := if |data| > 1 then [Symbol(v3)] + "" else "";
    var r1 := [Symbol(v2)] + r2;
    assert Group(data) == [Symbol(v1)] + r1;
    DecodeSymbol(v1, r1, acc, 0, written);
    var acc1 := (acc * 64 + v1) % 0x1_0000_0000;
    DecodeSymbol(v2, r2, acc1, 6, written);
    var acc2 := (acc1 * 64 + v2) % 0x1_0000_0000;
    LastSymbol(acc2, v2);
    NothingLeft(written + [a as char]);
    if |data| == 1 {
      assert written + [a as char] == written + data;
    } else {
      DecodeSymbol(v3, "", acc2, 4, written + [a as char]);
      NothingLeft(written + [a as char] + [b as char]);
      assert written + [a as char] + [b as char] == written + data;
    }
  }

  lemma NothingLeft(written: string)
    ensures forall acc, bits :: DecodeFrom("", acc, bits, written) == Some(written)
  {
  }

  lemma {:induction false} DecodeFromEncode(data: string, acc: int, written: string)
    requires IsBytes(data) && 0 <= acc < 0x1_0000_0000
    ensures DecodeFrom(Encode(data), acc, 0, written) == Some(written + data)
    decreases |data|
  {
    if data == "" {
      assert written + data == written;
    } else if |data| < 3 {
      DecodeLastGroup(data, acc, written);
    } else {
      var head, tail := data[..3], data[3..];
      assert Encode(data) == Group(head) + Encode(tail) by {
        if |data| == 3 {
          assert head == data && tail == "";
          assert Group(head) + "" == Group(head);
        }
      }
      hide DecodeFrom, Encode, Group;
      var acc' := DecodeGroup(head, Encode(tail), acc, written);
      DecodeFromEncode(tail, acc', written + head);
      assert written + head + tail == written + data;
    }
  }

  /** Decoding what was encoded gives the bytes back, although the accumulator drops its high bits. */
  lemma DecodeEncode(data: string)
    requires IsBytes(data)
    ensures Decode(Encode(data)) == Some(data)
  {
    DecodeFromEncode(data, 0, "");
    assert "" + data == data;
  }

  // ---------------------------------------------------------------- what the decoder accepts

  /** The number of characters before the first `=`. */
  function SymbolCount(s: string): (n: nat)
    ensures n <= |s| && (n < |s| ==> s[n] == '=')
    ensures forall i :: 0 <= i < n ==> s[i] != '='
  {
    if s == "" || s[0] == '=' then 0 else 1 + SymbolCount(s[1..])
  }

  lemma {:induction false} DecodeFromAccepts(s: string, acc: int, bits: nat, written: string)
    requires bits in {0, 2, 4, 6}
    ensures DecodeFrom(s, acc, bits, written).Some? <==> forall i :: 0 <= i < SymbolCount(s) ==> Sextet(s[i]) >= 0
    ensures DecodeFrom(s, acc, bits, written).Some? ==>
              |DecodeFrom(s, acc, bits, written).value| == |written| + (bits + 6 * SymbolCount(s)) / 8
  {
    hide Sextet, ShiftRight;
    if s != "" && s[0] != '=' {
      assert forall i :: 0 <= i < SymbolCount(s[1..]) ==> s[1..][i] == s[i + 1];
      if Sextet(s[0]) >= 0 {
        var acc' := (acc * 64 + Sextet(s[0])) % 0x1_0000_0000;
        if bits + 6 >= 8 {
          DecodeFromAccepts(s[1..], acc', bits - 2, written + [(ShiftRight(acc', bits - 2) % 256) as char]);
        } else {
          DecodeFromAccepts(s[1..], acc', bits + 6, written);
        }
        assert SymbolCount(s) == SymbolCount(s[1..]) + 1;
        assert forall i :: 0 < i < SymbolCount(s) ==> s[i] == s[1..][i - 1];
      } else {
        assert SymbolCount(s) > 0;
      }
    }
  }

  /**
   Exactly the texts whose characters before the first `=` all belong to an alphabet are decoded,
   and every eight of their bits give a byte; leftover bits are dropped.
   */
  lemma DecodeAccepts(s: string)
    ensures Decode(s).Some? <==> forall i :: 0 <= i < SymbolCount(s) ==> Sextet(s[i]) >= 0
    ensures Decode(s).Some? ==> |Decode(s).value| == 6 * SymbolCount(s) / 8
  {
    DecodeFromAccepts(s, 0, 0, "");
  }

  lemma {:induction false} SameSymbolsFrom(s: string, t: string, acc: int, bits: int, written: string)
    requires SymbolCount(s) == SymbolCount(t)
    requires forall i :: 0 <= i < SymbolCount(s) ==> Sextet(s[i]) == Sextet(t[i])
    ensures DecodeFrom(s, acc, bits, written) == DecodeFrom(t, acc, bits, written)
  {
    hide Sextet, ShiftRight;
    if SymbolCount(s) > 0 {
      assert Sextet(s[0]) == Sextet(t[0]);
      forall i | 0 <= i < SymbolCount(s[1..]) ensures Sextet(s[1..][i]) == Sextet(t[1..][i]) {
        assert s[1..][i] == s[i + 1] && t[1..][i] == t[i + 1];
      }
      if Sextet(s[0]) >= 0 {
        var acc' := (acc * 64 + Sextet(s[0])) % 0x1_0000_0000;
        if bits + 6 >= 8 {
          SameSymbolsFrom(s[1..], t[1..], acc', bits - 2, written + [(ShiftRight(acc', bits - 2) % 256) as char]);
        } else {
          SameSymbolsFrom(s[1..], t[1..], acc', bits + 6, written);
        }
      }
    }
  }

  /** Texts with the same symbols before their first `=` are decoded alike, in whichever alphabet and whatever follows. */
  lemma SameSymbols(s: string, t: string)
    requires SymbolCount(s) == SymbolCount(t)
    requires forall i :: 0 <= i < SymbolCount(s) ==> Sextet(s[i]) == Sextet(t[i])
    ensures Decode(s) == Decode(t)
  {
    SameSymbolsFrom(s, t, 0, 0, "");
  }

  lemma {:induction false} CountPadded(s: string, more: string)
    ensures SymbolCount(s + "=" + more) == SymbolCount(s)
  {
    if s != "" {
      assert (s + "=" + more)[1..] == s[1..] + "=" + more;
      CountPadded(s[1..], more);
    }
  }

  /** An `=` and anything after it can be appended without changing what is decoded. */
  lemma PaddingIsIgnored(s: string, more: string)
    ensures Decode(s + "=" + more) == Decode(s)
  {
    CountPadded(s, more);
    SameSymbols(s + "=" + more, s);
  }

  // ---------------------------------------------------------------- the loops

  method EncodeGroup(data: string, i: nat, before: string) returns (result: string)
    requires i < |data|
    ensures result == before + Group(if i + 3 <= |data| then data[i..i + 3] else data[i..])
  {
    var triple := Octet(data[i]) * 0x1_0000;
    if i + 1 < |data| {
      triple := triple + Octet(data[i + 1]) * 0x100;
    }
    if i + 2 < |data| {
      triple := triple + Octet(data[i + 2]);
    }
    hide Symbol;
    assert triple == Triple(if i + 3 <= |data| then data[i..i + 3] else data[i..]);
    hide Triple, Octet;
    result := before;
    result := result + [Symbol(triple / 0x4_0000 % 64)];
    result := result + [Symbol(triple / 0x1000 % 64)];
    if i + 1 < |data| {
      result := result + [Symbol(triple / 0x40 % 64)];
    }
    if i + 2 < |data| {
      result := result + [Symbol(triple % 64)];
    }
  }

  method Base64UrlEncode(data: string) returns (result: string)
    ensures result == Encode(data)
  {
    hide Encode, Group;
    result := "";
    var i := 0;
    assert data[0..] == data;
    while i < |data|
      invariant 0 <= i
      invariant i <= |data| ==> result + Encode(data[i..]) == Encode(data)
      invariant i > |data| ==> result == Encode(data)
    {
      ghost var before := result;
      EncodeStep(data, i);
      result := EncodeGroup(data, i, result);
      if i + 3 <= |data| {
        assert before + (Group(data[i..i + 3]) + Encode(data[i + 3..]))
            == before + Group(data[i..i + 3]) + Encode(data[i + 3..]);
      }
      i := i + 3;
    }
    if i == |data| {
      EncodeNothing();
      assert data[i..] == "" && result + "" == result;
    }
  }

  lemma EncodeNothing()
    ensures Encode("") == ""
  {
  }

  lemma EncodeStep(data: string, i: nat)
    requires i < |data|
    ensures i + 3 <= |data| ==> Encode(data[i..]) == Group(data[i..i + 3]) + Encode(data[i + 3..])
    ensures i + 3 > |data| ==> Encode(data[i..]) == Group(data[i..])
  {
    var rest := data[i..];
    if i + 3 <= |data| {
      assert rest[..3] == data[i..i + 3] && rest[3..] == data[i + 3..];
      if |rest| == 3 {
        assert rest == data[i..i + 3] && data[i + 3..] == "";
        assert Group(rest) + "" == Group(rest);
      }
    }
  }

  method Base64UrlDecode(encoded: string) returns (ok: bool, data: string)
    ensures ok <==> Decode(encoded).Some?
    ensures ok ==> data == Decode(encoded).value
  {
    ok, data := true, "";
    var accumulator, bits := 0, 0;
    var i := 0;
    while i < |encoded| && ok
      invariant 0 <= i <= |encoded|
      invariant bits in {0, 2, 4, 6}
      invariant ok ==> DecodeFrom(encoded[i..], accumulator, bits, data) == Decode(encoded)
      invariant !ok ==> Decode(encoded) == None
    {
      var current := encoded[i];
      if current == '=' {
        break;
      }
      var value := Sextet(current);
      if value < 0 {
        ok := false;
      } else {
        assert encoded[i..][1..] == encoded[i + 1..];
        accumulator := (accumulator * 64 + value) % 0x1_0000_0000;
        bits := bits + 6;
        if bits >= 8 {
          bits := bits - 8;
          data := data + [(ShiftRight(accumulator, bits) % 256) as char];
        }
      }
      i := i + 1;
    }
  }
}
