/**
 What a `\u` escape stands for: the UTF-8 encoding (RFC 3629, section 3) of the code unit its four
 digits write. Surrogates are encoded like any other code unit; pairs of them are not combined.
 */
module Utf8 {
  import opened Text
  import opened JsonReader
  import opened JsonSyntax

  predicate IsContinuation(c: char) {
    0x80 <= c as int < 0xC0
  }

  /** Decodes one code unit of at most three bytes, and says how many bytes it took. */
  function ReadUnit(s: string): Option<(int, nat)> {
    if s == "" then None
    else
      var a := s[0] as int;
      if a < 0x80 then Some((a, 1))
      else if 0xC0 <= a < 0xE0 && |s| >= 2 && IsContinuation(s[1]) then
        Some(((a - 0xC0) * 64 + (s[1] as int - 0x80), 2))
      else if 0xE0 <= a < 0xF0 && |s| >= 3 && IsContinuation(s[1]) && IsContinuation(s[2]) then
        Some(((a - 0xE0) * 4096 + (s[1] as int - 0x80) * 64 + (s[2] as int - 0x80), 3))
      else None
  }

  /** Every 16-bit code unit can be decoded from the bytes written for it, which are the shortest possible. */
  lemma CodeBytesDecode(code: int, rest: string)
    requires 0 <= code < 0x1_0000
    ensures var b := CodeBytes(code);
            && ReadUnit(b + rest) == Some((code, |b|))
            && |b| == if code < 0x80 then 1 else if code < 0x800 then 2 else 3
  {
    if 0x80 <= code < 0x800 {
      DivMod(0, 32, code / 64);
    } else if 0x800 <= code {
      DivMod(0, 16, code / 4096);
      DivMod(code / 4096, 64, code / 64 % 64);
      assert code == code / 64 * 64 + code % 64;
      assert code / 64 == code / 64 / 64 * 64 + code / 64 % 64;
      assert code / 64 / 64 == code / 4096;
    }
  }

  function FourDigits(hex: string): int
    requires |hex| == 4 && forall i :: 0 <= i < 4 ==> IsHex(hex[i])
  {
    HexValue(hex[0]) * 4096 + HexValue(hex[1]) * 256 + HexValue(hex[2]) * 16 + HexValue(hex[3])
  }

  lemma HexStep(c: char, s: string, acc: nat)
    requires IsHex(c)
    ensures HexRun([c] + s, acc) == HexRun(s, acc * 16 + HexValue(c))
    ensures HexRun("", acc * 16 + HexValue(c)) == acc * 16 + HexValue(c)
  {
    hide HexValue;
    assert ([c] + s)[1..] == s;
  }

  /** Hexadecimal digits alone: no sign, no prefix and no white space is found. */
  lemma ReadHexOfDigits(hex: string)
    requires |hex| == 4 && forall i :: 0 <= i < 4 ==> IsHex(hex[i])
    ensures ReadHex(hex) == Some(HexRun(hex, 0))
  {
    hide HexRun, HexValue;
    assert IsHex(hex[0]) && IsHex(hex[1]);
  }

  lemma FourDigitsRead(hex: string)
    requires |hex| == 4 && forall i :: 0 <= i < 4 ==> IsHex(hex[i])
    ensures ReadHex(hex) == Some(FourDigits(hex))
  {
    hide ReadHex, HexRun, HexValue, IsHex;
    ReadHexOfDigits(hex);
    var va, vb, vc, vd := HexValue(hex[0]), HexValue(hex[1]), HexValue(hex[2]), HexValue(hex[3]);
    var s1, s2, s3 := hex[1..], hex[2..], hex[3..];
    assert hex == [hex[0]] + s1 && s1 == [hex[1]] + s2 && s2 == [hex[2]] + s3 && s3 == [hex[3]] + "";
    HexStep(hex[0], s1, 0);
    HexStep(hex[1], s2, va);
    HexStep(hex[2], s3, va * 16 + vb);
    HexStep(hex[3], "", (va * 16 + vb) * 16 + vc);
    assert HexRun(hex, 0) == ((va * 16 + vb) * 16 + vc) * 16 + vd;
  }

  lemma FourDigitsFit(hex: string)
    requires |hex| == 4 && forall i :: 0 <= i < 4 ==> IsHex(hex[i])
    ensures 0 <= FourDigits(hex) < 0x1_0000
  {
    hide HexValue;
  }

  lemma EscapeValue(hex: string, n: int)
    requires |hex| == 4 && ReadHex(hex) == Some(n) && 0 <= n < 0x1_0000
    ensures PieceOk(Code(hex)) && PieceValue(Code(hex)) == CodeBytes(n)
  {
    hide ReadHex, CodeBytes;
  }

  /** A proper escape, followed by anything, is read as the encoding of the number it writes. */
  lemma EscapeIsUtf8(hex: string, rest: string)
    requires |hex| == 4 && forall i :: 0 <= i < 4 ==> IsHex(hex[i])
    ensures PieceOk(Code(hex))
    ensures ReadUnit(PieceValue(Code(hex)) + rest) == Some((FourDigits(hex), |PieceValue(Code(hex))|))
  {
    FourDigitsRead(hex);
    FourDigitsFit(hex);
    EscapeValue(hex, FourDigits(hex));
    hide *;
    CodeBytesDecode(FourDigits(hex), rest);
  }
}
