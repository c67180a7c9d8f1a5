/**
 Byte strings and the decimal conversions the gateway borrows from the C++ library.

 A `std::string` or a byte vector of the program is a Dafny `string`. Its characters stand for
 bytes; `IsBytes` says so where the numeric value of a byte matters, and everything else holds
 of every string, hence of every byte string.
 */
module Text {

  predicate IsBytes(s: string) {
    forall i :: 0 <= i < |s| ==> s[i] as int < 256
  }

  /** The byte a character stands for. */
  function Octet(c: char): (n: int)
    ensures 0 <= n < 256
    ensures c as int < 256 ==> n == c as int
  {
    c as int % 256
  }

  lemma SmallMultiple(k: int, d: int)
    requires d > 0 && -d < k * d < d
    ensures k == 0
  {
  }

  /** Quotient and remainder are determined by their defining equation. */
  lemma DivMod(q: int, d: int, r: int)
    requires 0 <= r < d
    ensures (q * d + r) / d == q && (q * d + r) % d == r
  {
    var x := q * d + r;
    var k := x / d;
    var m := x % d;
    assert x == d * k + m && 0 <= m < d;
    assert (k - q) * d == r - m by {
      assert (k - q) * d == k * d - q * d;
      assert d * k == k * d;
    }
    SmallMultiple(k - q, d);
  }

  const INT64_MIN: int := -0x8000_0000_0000_0000
  const INT64_MAX: int := 0x7FFF_FFFF_FFFF_FFFF

  predicate IsInt64(n: int) {
    INT64_MIN <= n <= INT64_MAX
  }

  predicate IsDigit(c: char) {
    '0' <= c <= '9'
  }

  function DigitValue(c: char): (d: int)
    requires IsDigit(c)
    ensures 0 <= d < 10
  {
    c as int - '0' as int
  }

  function DigitChar(d: int): (c: char)
    requires 0 <= d < 10
    ensures IsDigit(c) && DigitValue(c) == d
  {
    (d + '0' as int) as char
  }

  predicate AllDigits(s: string) {
    forall i :: 0 <= i < |s| ==> IsDigit(s[i])
  }

  /** The value of a digit string, most significant digit first. */
  function DecimalValue(s: string): (n: nat)
    requires AllDigits(s)
  {
    if s == "" then 0
    else DecimalValue(s[..|s| - 1]) * 10 + DigitValue(s[|s| - 1])
  }

  /** The decimal digits of a natural number, without leading zeros. */
  function Decimal(n: nat): (s: string)
    ensures |s| > 0 && AllDigits(s)
    ensures |s| > 1 ==> s[0] != '0'
  {
    if n < 10 then [DigitChar(n)]
    else Decimal(n / 10) + [DigitChar(n % 10)]
  }

  lemma {:induction false} DecimalInverse(n: nat)
    ensures DecimalValue(Decimal(n)) == n
  {
    var s := Decimal(n);
    if n < 10 {
      assert s[..|s| - 1] == "";
    } else {
      DecimalInverse(n / 10);
      assert s[..|s| - 1] == Decimal(n / 10);
    }
  }

  /** `std::to_string` of a signed integer. */
  function ToString(n: int): (s: string)
    ensures |s| > 0
  {
    if n < 0 then "-" + Decimal(-n) else Decimal(n)
  }

  /** The length of the longest run of digits at the front of `s`. */
  function DigitRun(s: string): (n: nat)
    ensures n <= |s| && AllDigits(s[..n])
    ensures n < |s| ==> !IsDigit(s[n])
  {
    if s == "" || !IsDigit(s[0]) then 0
    else
      var m := DigitRun(s[1..]);
      assert s[..m + 1] == [s[0]] + s[1..][..m];
      m + 1
  }

  /** The digit run of `digits` followed by something that is not a digit is exactly `digits`. */
  lemma {:induction false} DigitRunOf(digits: string, rest: string)
    requires AllDigits(digits)
    requires rest == "" || !IsDigit(rest[0])
    ensures DigitRun(digits + rest) == |digits|
  {
    if digits == "" {
      assert digits + rest == rest;
    } else {
      DigitRunOf(digits[1..], rest);
      assert (digits + rest)[1..] == digits[1..] + rest;
    }
  }

  // ---------------------------------------------------------------- white space

  predicate IsSpace(c: char) {
    c == ' ' || c == '\t' || c == '\n' || c == '\r'
  }

  predicate AllSpace(s: string) {
    forall i :: 0 <= i < |s| ==> IsSpace(s[i])
  }

  function SkipSpace(s: string): (r: string)
    ensures |r| <= |s|
    ensures r != "" ==> !IsSpace(r[0])
    ensures s != "" && !IsSpace(s[0]) ==> r == s
  {
    if s != "" && IsSpace(s[0]) then SkipSpace(s[1..]) else s
  }

  lemma {:induction false} SkipSpaceOver(w: string, s: string)
    requires AllSpace(w)
    ensures SkipSpace(w + s) == SkipSpace(s)
  {
    if w == "" {
      assert w + s == s;
    } else {
      SkipSpaceOver(w[1..], s);
      assert (w + s)[1..] == w[1..] + s;
    }
  }

  // ---------------------------------------------------------------- hexadecimal

  /** The characters `isspace` accepts; `strtoul` skips them. */
  predicate IsCSpace(c: char) {
    IsSpace(c) || c == 11 as char || c == 12 as char
  }

  predicate IsHex(c: char) {
    IsDigit(c) || 'a' <= c <= 'f' || 'A' <= c <= 'F'
  }

  function HexValue(c: char): (d: int)
    requires IsHex(c)
    ensures 0 <= d < 16
  {
    if IsDigit(c) then DigitValue(c)
    else if 'a' <= c <= 'f' then c as int - 'a' as int + 10
    else c as int - 'A' as int + 10
  }

  function HexChar(d: int): (c: char)
    requires 0 <= d < 16
    ensures IsHex(c) && HexValue(c) == d
  {
    if d < 10 then DigitChar(d) else (d - 10 + 'a' as int) as char
  }

  /** The digit for a number, in the chosen case. */
  function HexDigit(d: int, upper: bool): char
    requires 0 <= d < 16
  {
    if upper then "0123456789ABCDEF"[d] else "0123456789abcdef"[d]
  }

  /** Hexadecimal digits are read in either case, and nothing else is one. */
  lemma HexDigitValue(d: int, upper: bool)
    requires 0 <= d < 16
    ensures IsHex(HexDigit(d, upper)) && HexValue(HexDigit(d, upper)) == d
  {
  }

  lemma HexIsDigit(c: char)
    requires IsHex(c)
    ensures c == HexDigit(HexValue(c), true) || c == HexDigit(HexValue(c), false)
  {
  }

  /** The value read by consuming hexadecimal digits from the front of `s`, starting at `acc`. */
  function HexRun(s: string, acc: nat): nat {
    if s == "" || !IsHex(s[0]) then acc else HexRun(s[1..], acc * 16 + HexValue(s[0]))
  }

  datatype Option<T> = None | Some(value: T)

  function SkipCSpace(s: string): (r: string)
    ensures |r| <= |s|
  {
    if s != "" && IsCSpace(s[0]) then SkipCSpace(s[1..]) else s
  }

  /**
   What `strtol`/`strtoul` with base 16 read from `s`: white space, an optional sign, an optional
   `0x`, hexadecimal digits. `None` when there is nothing to convert, in which case `std::stoul`
   and `std::stoi` throw. The strings converted here are at most four characters long, so no
   range error is possible.
   */
  function ReadHex(s: string): Option<int> {
    var t := SkipCSpace(s);
    var negative := t != "" && t[0] == '-';
    var u := if t != "" && (t[0] == '-' || t[0] == '+') then t[1..] else t;
    var magnitude: Option<int> :=
      if |u| >= 2 && u[0] == '0' && (u[1] == 'x' || u[1] == 'X') then Some(HexRun(u[2..], 0))
      else if u != "" && IsHex(u[0]) then Some(HexRun(u, 0))
      else None;
    match magnitude
    case None => None
    case Some(m) => Some(if negative then -m else m)
  }

  /** The six characters that numbers in headers, parameters and escapes may have in front. */
  predicate IsCGap(s: string) {
    forall i :: 0 <= i < |s| ==>
      s[i] == ' ' || s[i] == '\t' || s[i] == '\n' || s[i] == '\r' || s[i] == 11 as char || s[i] == 12 as char
  }

  lemma {:induction false} CGapSkipped(gap: string, s: string)
    requires IsCGap(gap) && (s != "" ==> !IsCGap([s[0]]))
    ensures SkipCSpace(gap + s) == s
  {
    if gap == "" {
      assert gap + s == s;
      assert s != "" ==> [s[0]][0] == s[0];
    } else {
      CGapSkipped(gap[1..], s);
      assert (gap + s)[1..] == gap[1..] + s;
    }
  }

  predicate AllHex(s: string) {
    forall i :: 0 <= i < |s| ==> IsHex(s[i])
  }

  lemma {:induction false} HexRunStops(digits: string, junk: string, acc: nat)
    requires AllHex(digits) && (junk == "" || !IsHex(junk[0]))
    ensures HexRun(digits + junk, acc) == HexRun(digits, acc)
    decreases |digits|
  {
    hide HexValue, IsHex;
    if digits == "" {
      assert digits + junk == junk;
    } else {
      assert (digits + junk)[1..] == digits[1..] + junk;
      HexRunStops(digits[1..], junk, acc * 16 + HexValue(digits[0]));
    }
  }

  /**
   How freely a hexadecimal number may be written where two or four digits are expected: white space,
   a sign and `0x` may come first, and what comes after the digits is not looked at.
   */
  lemma HexNumbers(gap: string, sign: string, prefix: string, digits: string, junk: string)
    requires IsCGap(gap) && (sign == "" || sign == "+" || sign == "-") && (prefix == "" || prefix == "0x" || prefix == "0X")
    requires AllHex(digits) && (junk == "" || !IsHex(junk[0])) && (prefix == "" ==> digits != "")
    requires prefix == "" && digits == "0" && junk != "" ==> junk[0] != 'x' && junk[0] != 'X'
    ensures ReadHex(gap + (sign + (prefix + (digits + junk)))) ==
            Some(if sign == "-" then 0 - HexRun(digits, 0) else HexRun(digits, 0))
  {
    hide *;
    var number := digits + junk;
    var u := prefix + number;
    HexRunStops(digits, junk, 0);
    HexNumberHead(sign, prefix, digits, junk);
    CGapSkipped(gap, sign + u);
    PrefixIsSeen(prefix, digits, junk);
    ReadHexOf(gap + (sign + u), sign, u);
    if prefix != "" {
      assert u[2..] == number;
    } else {
      assert u == number;
    }
  }

  /** A `0x` in front is told apart from digits. */
  lemma PrefixIsSeen(prefix: string, digits: string, junk: string)
    requires prefix == "" || prefix == "0x" || prefix == "0X"
    requires AllHex(digits) && (junk == "" || !IsHex(junk[0])) && (prefix == "" ==> digits != "")
    requires prefix == "" && digits == "0" && junk != "" ==> junk[0] != 'x' && junk[0] != 'X'
    ensures var u := prefix + (digits + junk);
            && (|u| >= 2 && u[0] == '0' && (u[1] == 'x' || u[1] == 'X') <==> prefix != "")
            && u != "" && IsHex(u[0]) && u[0] != '+' && u[0] != '-'
  {
    var u := prefix + (digits + junk);
    if prefix != "" {
      assert u[0] == prefix[0] && u[1] == prefix[1];
    } else {
      assert u[0] == digits[0];
      assert |u| >= 2 ==> u[1] == if |digits| > 1 then digits[1] else junk[0];
    }
  }

  lemma ReadHexOf(s: string, sign: string, u: string)
    requires (sign == "" || sign == "+" || sign == "-") && SkipCSpace(s) == sign + u
    requires u != "" && u[0] != '+' && u[0] != '-' && IsHex(u[0])
    ensures var digits := if |u| >= 2 && u[0] == '0' && (u[1] == 'x' || u[1] == 'X') then u[2..] else u;
            ReadHex(s) == Some(if sign == "-" then 0 - HexRun(digits, 0) else HexRun(digits, 0))
  {
    hide SkipCSpace, HexRun;
    var t := sign + u;
    if sign != "" {
      assert t[0] == sign[0] && t[1..] == u;
    } else {
      assert t == u;
    }
  }

  lemma HexNumberHead(sign: string, prefix: string, digits: string, junk: string)
    requires (sign == "" || sign == "+" || sign == "-") && (prefix == "" || prefix == "0x" || prefix == "0X")
    requires AllHex(digits) && (prefix == "" ==> digits != "")
    ensures var t := sign + (prefix + (digits + junk)); t != "" && !IsCGap([t[0]])
  {
    var u := prefix + (digits + junk);
    assert u[0] == if prefix != "" then '0' else digits[0];
    var t := sign + u;
    assert t[0] == if sign != "" then sign[0] else u[0];
    assert [t[0]][0] == t[0];
  }

  /** Without a digit there is nothing to convert, and the conversion throws. */
  lemma NoHexNumber(gap: string, sign: string, junk: string)
    requires IsCGap(gap) && (sign == "" || sign == "+" || sign == "-")
    requires junk != "" ==> !IsHex(junk[0]) && (sign == "" ==> junk[0] != '+' && junk[0] != '-' && !IsCGap([junk[0]]))
    ensures ReadHex(gap + (sign + junk)) == None
  {
    var t := sign + junk;
    assert t != "" ==> t[0] == if sign != "" then sign[0] else junk[0];
    assert t != "" ==> [t[0]][0] == t[0];
    CGapSkipped(gap, t);
    assert (if sign != "" then t[1..] else t) == junk;
    hide SkipCSpace, IsCGap;
  }
}
