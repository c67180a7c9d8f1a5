/**
 The binary layout of a token: two length-prefixed identifiers, a type byte and two 64-bit
 timestamps, all big-endian.
 */
module TokenPayload {
  import opened Text
  import opened Frames

  datatype TokenType = Access | Refresh

  datatype Payload = Payload(server: string, user: string, kind: TokenType, creation: int, expiry: int)

  /** The bytes of a payload that are not identifier text. */
  const FIXED_SIZE: nat := 25

  const TWO32: int := 0x1_0000_0000
  const TWO64: int := 0x1_0000_0000_0000_0000

  // ---------------------------------------------------------------- 64-bit numbers

  /** The eight bytes of a two's complement number, most significant first. */
  function Bytes64(n: int): (s: string)
    ensures |s| == 8 && IsBytes(s)
  {
    Bytes32(n / TWO32 % TWO32) + Bytes32(n % TWO32)
  }

  /** A 64-bit pattern read as a signed number. */
  function Signed64(u: int): (n: int)
    requires 0 <= u < TWO64
    ensures IsInt64(n)
  {
    if u > INT64_MAX then u - TWO64 else u
  }

  function Number64(s: string): (n: int)
    requires |s| >= 8
    ensures IsInt64(n)
  {
    Signed64(Number32(s) * TWO32 + Number32(s[4..]))
  }

  lemma Bytes64Inverse(n: int, rest: string)
    requires IsInt64(n)
    ensures Number64(Bytes64(n) + rest) == n
  {
    var hi, lo := n / TWO32 % TWO32, n % TWO32;
    var s := Bytes64(n) + rest;
    assert s == Bytes32(hi) + (Bytes32(lo) + rest);
    Bytes32Inverse(hi, Bytes32(lo) + rest);
    assert s[4..] == Bytes32(lo) + rest;
    Bytes32Inverse(lo, rest);
    assert n == n / TWO32 * TWO32 + lo;
    if n >= 0 {
      DivMod(0, TWO32, n / TWO32);
    } else {
      DivMod(-1, TWO32, n / TWO32 + TWO32);
    }
  }

  /** `2` to the power of the shift amounts of the timestamp loop. */
  function Shifted(n: int, shift: int): int {
    if shift == 56 then n / 0x100_0000_0000_0000
    else if shift == 48 then n / 0x1_0000_0000_0000
    else if shift == 40 then n / 0x100_0000_0000
    else if shift == 32 then n / 0x1_0000_0000
    else if shift == 24 then n / 0x100_0000
    else if shift == 16 then n / 0x1_0000
    else if shift == 8 then n / 0x100
    else n
  }

  /** Shifting right by eight more bits divides by 256 more, also for negative numbers. */
  lemma ShiftedStep(n: int, shift: int)
    requires shift in {0, 8, 16, 24, 32, 40, 48}
    ensures Shifted(n, shift) / 256 == Shifted(n, shift + 8)
  {
    var q := Shifted(n, shift);
    match shift
    case 8 => DivMod(q / 256, 0x1_0000, q % 256 * 0x100 + n % 0x100);
    case 16 => DivMod(q / 256, 0x100_0000, q % 256 * 0x1_0000 + n % 0x1_0000);
    case 24 => DivMod(q / 256, 0x1_0000_0000, q % 256 * 0x100_0000 + n % 0x100_0000);
    case 32 => DivMod(q / 256, 0x100_0000_0000, q % 256 * 0x1_0000_0000 + n % 0x1_0000_0000);
    case 40 => DivMod(q / 256, 0x1_0000_0000_0000, q % 256 * 0x100_0000_0000 + n % 0x100_0000_0000);
    case 48 => DivMod(q / 256, 0x100_0000_0000_0000, q % 256 * 0x1_0000_0000_0000 + n % 0x1_0000_0000_0000);
    case _ =>
  }

  /** The bytes of a number, one shift at a time. */
  lemma Bytes64ByShifts(n: int)
    ensures Bytes64(n) == [Byte(Shifted(n, 56)), Byte(Shifted(n, 48)), Byte(Shifted(n, 40)), Byte(Shifted(n, 32)),
                           Byte(Shifted(n, 24)), Byte(Shifted(n, 16)), Byte(Shifted(n, 8)), Byte(Shifted(n, 0))]
  {
    BytesOfLow(n);
    BytesOfLow(n / TWO32);
    assert Shifted(n, 32) == n / TWO32;
    ShiftedStep(n, 32);
    ShiftedStep(n, 40);
    ShiftedStep(n, 48);
    ShiftedStep(n / TWO32, 0);
    ShiftedStep(n / TWO32, 8);
    ShiftedStep(n / TWO32, 16);
  }

  /** The low 32 bits of a number, byte by byte. */
  lemma BytesOfLow(n: int)
    ensures Bytes32(n % TWO32) ==
            [Byte(Shifted(n, 24)), Byte(Shifted(n, 16)), Byte(Shifted(n, 8)), Byte(n)]
  {
    var h, m := n / TWO32, n % TWO32;
    assert n == h * TWO32 + m;
    DivMod(h * 0x100_0000 + m / 0x100, 0x100, m % 0x100);
    DivMod(h * 0x1_0000 + m / 0x1_0000, 0x1_0000, m % 0x1_0000);
    DivMod(h * 0x100 + m / 0x100_0000, 0x100_0000, m % 0x100_0000);
    SameLowByte(h * 0x1_0000, m / 0x100);
    SameLowByte(h * 0x100, m / 0x1_0000);
    SameLowByte(h, m / 0x100_0000);
    SameLowByte(h * 0x100_0000, m);
  }

  lemma SameLowByte(k: int, m: int)
    ensures (k * 256 + m) % 256 == m % 256
  {
    DivMod(k + m / 256, 256, m % 256);
  }

  // ---------------------------------------------------------------- the codec

  function TypeByte(kind: TokenType): char {
    if kind == Access then 0 as char else 1 as char
  }

  /** The length of an identifier as the 32-bit length field holds it. */
  function Length32(s: string): (n: int)
    ensures IsUint32(n)
  {
    |s| % TWO32
  }

  function Tail(p: Payload): (s: string)
    ensures |s| == 17
  {
    [TypeByte(p.kind)] + (Bytes64(p.creation) + Bytes64(p.expiry))
  }

  function Serialize(p: Payload): (s: string)
    ensures |s| == FIXED_SIZE + |p.server| + |p.user|
  {
    Bytes32(Length32(p.server)) + (p.server + (Bytes32(Length32(p.user)) + (p.user + Tail(p))))
  }

  /** `OutOfBounds` is where a wrapped 32-bit sum lets the program read past its buffer. */
  datatype Decoded = Decoded(payload: Payload) | Rejected | OutOfBounds

  /** The bounds checks add the offset and a length field as 32-bit numbers. */
  function Sum32(n: int): int {
    n % TWO32
  }

  function ReadTail(server: string, user: string, s: string): Payload
    requires |s| >= 17
  {
    Payload(server, user, if s[0] == 0 as char then Access else Refresh, Number64(s[1..]), Number64(s[9..]))
  }

  function Deserialize(data: string): Decoded {
    if |data| < FIXED_SIZE then Rejected
    else
      var n := Number32(data);
      if Sum32(4 + n + 4 + 1 + 16) > |data| then Rejected
      else if 4 + n + 4 > |data| then OutOfBounds
      else
        var server, rest := data[4..4 + n], data[4 + n..];
        var m := Number32(rest);
        if Sum32(4 + n + 4 + m + 1 + 16) > |data| then Rejected
        else if 4 + m + 1 > |rest| then OutOfBounds
        else
          var user, tail := rest[4..4 + m], rest[4 + m..];
          if |tail| < 17 then Rejected else Decoded(ReadTail(server, user, tail))
  }

  /**
   Exactly when the bounds checks let a read past the buffer through: one of the two length fields is
   so large that its sum with the offset and the fixed rest wraps to a small number.
   */
  lemma OutOfBoundsExactly(data: string)
    requires |data| < TWO32 - FIXED_SIZE
    ensures Deserialize(data) == OutOfBounds <==>
            && |data| >= FIXED_SIZE
            && (var n := Number32(data);
                || n >= TWO32 - FIXED_SIZE
                || (n + FIXED_SIZE <= |data| && Number32(data[4 + n..]) >= TWO32 - FIXED_SIZE - n))
  {
    hide Number32, ReadTail;
    if |data| >= FIXED_SIZE {
      var n := Number32(data);
      SumWraps(n + FIXED_SIZE);
      if n + FIXED_SIZE <= |data| {
        SumWraps(n + Number32(data[4 + n..]) + FIXED_SIZE);
      }
    }
  }

  lemma SumWraps(n: int)
    requires 0 <= n < 2 * TWO32
    ensures Sum32(n) == if n < TWO32 then n else n - TWO32
  {
  }

  /** Such a buffer: a first length field of 2^32 - 16, and zeros up to the minimal size. */
  lemma OutOfBoundsReached()
    ensures var data := Bytes32(0xFFFF_FFF0) + Zeros(21); IsBytes(data) && Deserialize(data) == OutOfBounds
  {
    var data := Bytes32(0xFFFF_FFF0) + Zeros(21);
    Bytes32Inverse(0xFFFF_FFF0, Zeros(21));
    OutOfBoundsExactly(data);
  }

  lemma ReadTailOf(p: Payload, server: string, user: string)
    requires IsInt64(p.creation) && IsInt64(p.expiry)
    ensures ReadTail(server, user, Tail(p)) == Payload(server, user, p.kind, p.creation, p.expiry)
  {
    var t := Tail(p);
    assert t[1..] == Bytes64(p.creation) + Bytes64(p.expiry);
    assert t[9..] == Bytes64(p.expiry) + "";
    Bytes64Inverse(p.creation, Bytes64(p.expiry));
    Bytes64Inverse(p.expiry, "");
  }

  /** A payload that fits 32 bits is read back unchanged: no sum wraps and no read leaves the buffer. */
  lemma DeserializeSerialize(p: Payload)
    requires FIXED_SIZE + |p.server| + |p.user| < TWO32
    requires IsInt64(p.creation) && IsInt64(p.expiry)
    ensures Deserialize(Serialize(p)) == Decoded(p)
  {
    hide Bytes32, Number32, Tail, ReadTail, Number64, Bytes64;
    var data := Serialize(p);
    var n, m := |p.server|, |p.user|;
    var afterUser := p.user + Tail(p);
    var afterServer := Bytes32(m) + afterUser;
    var afterLength := p.server + afterServer;
    Bytes32Inverse(n, afterLength);
    assert data == Bytes32(n) + afterLength;
    assert data[4..4 + n] == p.server;
    assert data[4 + n..] == afterServer;
    Bytes32Inverse(m, afterUser);
    assert afterServer[4..4 + m] == p.user;
    assert afterServer[4 + m..] == Tail(p);
    ReadTailOf(p, p.server, p.user);
  }

  /** Whatever is decoded inside the buffer is small enough to be its length, so decoding is faithful. */
  lemma DecodedFits(data: string)
    requires Deserialize(data).Decoded?
    ensures var p := Deserialize(data).payload;
            FIXED_SIZE + |p.server| + |p.user| <= |data| && IsInt64(p.creation) && IsInt64(p.expiry)
  {
  }

  lemma Number64Inverse(s: string)
    requires |s| >= 8 && IsBytes(s)
    ensures Bytes64(Number64(s)) == s[..8]
  {
    var hi, lo, n := Number32(s), Number32(s[4..]), Number64(s);
    Number32Inverse(s);
    Number32Inverse(s[4..]);
    hide Bytes32, Number32;
    if n >= 0 {
      DivMod(hi, TWO32, lo);
      DivMod(0, TWO32, hi);
    } else {
      DivMod(hi - TWO32, TWO32, lo);
      DivMod(-1, TWO32, hi);
    }
    assert s[..8] == s[..4] + s[4..][..4];
  }

  /**
   Decoding loses nothing but the spelling of the type: what was decoded is serialized to the bytes
   it was read from, where every type byte other than zero stands for a refresh token.
   */
  lemma SerializeDeserialize(data: string)
    requires IsBytes(data) && Deserialize(data).Decoded?
    ensures var p := Deserialize(data).payload; var k := 8 + |p.server| + |p.user|;
            && k + 17 <= |data|
            && (p.kind == Access <==> data[k] == 0 as char)
            && Serialize(p) == data[..k] + [TypeByte(p.kind)] + data[k + 1..k + 17]
  {
    hide *;
    var p := Deserialize(data).payload;
    DecodedParts(data);
    var n, m := |p.server|, |p.user|;
    var k := 8 + n + m;
    var rest := data[4 + n..];
    var tail := data[k..];
    PartsAreBytes(data);
    Number32Inverse(data);
    Number32Inverse(rest);
    Number64Inverse(tail[1..]);
    Number64Inverse(tail[9..]);
    assert tail[1..][..8] == data[k + 1..k + 9] && tail[9..][..8] == data[k + 9..k + 17];
    SerializeIs(p, data[..4], rest[..4], data[k + 1..k + 9], data[k + 9..k + 17]);
    assert data[..k] == data[..4] + p.server + rest[..4] + p.user;
    assert data[k + 1..k + 17] == data[k + 1..k + 9] + data[k + 9..k + 17];
  }

  lemma PartsAreBytes(data: string)
    requires IsBytes(data)
    ensures forall i :: 0 <= i <= |data| ==> IsBytes(data[i..])
  {
  }

  /** Where the parts of a decoded payload lie in the buffer. */
  lemma DecodedParts(data: string)
    requires Deserialize(data).Decoded?
    ensures var p := Deserialize(data).payload; var n, m := |p.server|, |p.user|; var k := 8 + n + m;
            && k + 17 <= |data| && n < TWO32 && m < TWO32
            && p.server == data[4..4 + n] && p.user == data[8 + n..k]
            && n == Number32(data) && m == Number32(data[4 + n..])
            && (p.kind == Access <==> data[k] == 0 as char)
            && p.creation == Number64(data[k..][1..]) && p.expiry == Number64(data[k..][9..])
  {
    hide Number32, Number64;
    var n := Number32(data);
    var rest := data[4 + n..];
    var m := Number32(rest);
    assert rest[4..4 + m] == data[8 + n..8 + n + m];
    assert rest[4 + m..] == data[8 + n + m..];
  }

  lemma SerializeIs(p: Payload, n: string, m: string, creation: string, expiry: string)
    requires |p.server| < TWO32 && |p.user| < TWO32
    requires Bytes32(|p.server|) == n && Bytes32(|p.user|) == m
    requires Bytes64(p.creation) == creation && Bytes64(p.expiry) == expiry
    ensures Serialize(p) == n + p.server + m + p.user + [TypeByte(p.kind)] + (creation + expiry)
  {
    hide Bytes32, Bytes64;
  }

  /**
   The bytes of a token's contents: two identifiers, each after its length as a big-endian 32-bit number,
   a byte for the type, and the times of issue and expiry as eight bytes each.
   */
  lemma PayloadLayout(p: Payload)
    requires |p.server| < TWO32 && |p.user| < TWO32
    ensures var d := Serialize(p); var n, m := |p.server|, |p.user|; var k := 8 + n + m;
            && |d| == k + 17
            && d[0] as int * 16777216 + d[1] as int * 65536 + d[2] as int * 256 + d[3] as int == n
            && d[4..4 + n] == p.server
            && d[4 + n] as int * 16777216 + d[5 + n] as int * 65536 + d[6 + n] as int * 256 + d[7 + n] as int == m
            && d[8 + n..k] == p.user
            && d[k] as int == (match p.kind case Access => 0 case Refresh => 1)
            && (forall i :: 0 <= i < 8 ==> d[k + 1 + i] as int == Shifted(p.creation, 56 - 8 * i) % 256)
            && (forall i :: 0 <= i < 8 ==> d[k + 9 + i] as int == Shifted(p.expiry, 56 - 8 * i) % 256)
  {
    var n, m := |p.server|, |p.user|;
    assert IsUint32(n) && IsUint32(m);
    hide *;
    SerializeIs(p, Bytes32(n), Bytes32(m), Bytes64(p.creation), Bytes64(p.expiry));
    BigEndian(n);
    BigEndian(m);
    TimestampBytes(p.creation);
    TimestampBytes(p.expiry);
    TypeByteIs(p.kind);
    PlacesOf(Serialize(p), Bytes32(n), p.server, Bytes32(m), p.user, TypeByte(p.kind), Bytes64(p.creation), Bytes64(p.expiry));
  }

  lemma TypeByteIs(kind: TokenType)
    ensures TypeByte(kind) as int == match kind case Access => 0 case Refresh => 1
  {
  }

  lemma TimestampBytes(n: int)
    ensures forall i :: 0 <= i < 8 ==> Bytes64(n)[i] as int == Shifted(n, 56 - 8 * i) % 256
  {
    Bytes64ByShifts(n);
    hide Bytes64, Shifted;
  }

  /** Where the parts of a concatenation lie. */
  lemma PlacesOf(d: string, a: string, server: string, b: string, user: string, kind: char, creation: string, expiry: string)
    requires |a| == 4 && |b| == 4 && |creation| == 8 && |expiry| == 8
    requires d == a + server + b + user + [kind] + (creation + expiry)
    ensures var n, m := |server|, |user|; var k := 8 + n + m;
            && |d| == k + 17
            && d[0] == a[0] && d[1] == a[1] && d[2] == a[2] && d[3] == a[3] && d[4..4 + n] == server
            && d[4 + n] == b[0] && d[5 + n] == b[1] && d[6 + n] == b[2] && d[7 + n] == b[3] && d[8 + n..k] == user
            && d[k] == kind
            && (forall i :: 0 <= i < 8 ==> d[k + 1 + i] == creation[i])
            && (forall i :: 0 <= i < 8 ==> d[k + 9 + i] == expiry[i])
  {
  }

  // ---------------------------------------------------------------- the loops

  method PushTimestamp(n: int, before: string) returns (data: string)
    ensures data == before + Bytes64(n)
  {
    Bytes64ByShifts(n);
    ghost var all := Bytes64(n);
    hide Shifted, Bytes64, Byte;
    data := before;
    var shift := 56;
    while shift >= 0
      invariant shift in {-8, 0, 8, 16, 24, 32, 40, 48, 56}
      invariant data == before + all[..(56 - shift) / 8]
      decreases shift + 8
    {
      assert all[(56 - shift) / 8] == Byte(Shifted(n, shift));
      data := data + [Byte(Shifted(n, shift))];
      shift := shift - 8;
    }
    assert all[..8] == all;
  }

  method SerializePayload(p: Payload) returns (data: string)
    ensures data == Serialize(p)
  {
    hide Bytes32, Bytes64;
    data := "";
    data := data + Bytes32(Length32(p.server));
    data := data + p.server;
    data := data + Bytes32(Length32(p.user));
    data := data + p.user;
    data := data + [TypeByte(p.kind)];
    data := PushTimestamp(p.creation, data);
    data := PushTimestamp(p.expiry, data);
    assert data == Serialize(p);
  }

  /** The first `i` bytes as an unsigned number. */
  function Prefix(s: string, i: nat): (n: nat)
    requires i <= |s| && i <= 8
    ensures n < Power256(i)
  {
    if i == 0 then 0 else Prefix(s, i - 1) * 256 + Octet(s[i - 1])
  }

  function Power256(i: nat): (n: nat)
    requires i <= 8
    ensures 0 < n <= TWO64 && (i < 8 ==> n <= TWO64 / 256)
  {
    [1, 0x100, 0x1_0000, 0x100_0000, 0x1_0000_0000, 0x100_0000_0000, 0x1_0000_0000_0000,
     0x100_0000_0000_0000, 0x1_0000_0000_0000_0000][i]
  }

  lemma PrefixIsNumber(s: string)
    requires |s| >= 8
    ensures Prefix(s, 8) == Number32(s) * TWO32 + Number32(s[4..])
  {
    var a := Prefix(s, 4);
    assert a == Number32(s) by {
      assert Prefix(s, 1) == Octet(s[0]);
      assert Prefix(s, 2) == Octet(s[0]) * 256 + Octet(s[1]);
      assert Prefix(s, 3) == (Octet(s[0]) * 256 + Octet(s[1])) * 256 + Octet(s[2]);
    }
    assert Prefix(s, 5) == a * 256 + Octet(s[4]);
    assert Prefix(s, 6) == (a * 256 + Octet(s[4])) * 256 + Octet(s[5]);
    assert Prefix(s, 7) == Prefix(s, 6) * 256 + Octet(s[6]);
    assert Prefix(s, 8) == (Prefix(s, 6) * 256 + Octet(s[6])) * 256 + Octet(s[7]);
  }

  /** The loop that shifts eight bytes into a 64-bit signed number. */
  method ReadTimestamp(s: string) returns (value: int)
    requires |s| >= 8
    ensures value == Number64(s)
  {
    value := 0;
    for i := 0 to 8
      invariant value == Signed64(Prefix(s, i))
    {
      value := Signed64((value * 256 + Octet(s[i])) % TWO64);
    }
    PrefixIsNumber(s);
  }

  method DeserializePayload(data: string) returns (result: Decoded)
    ensures result == Deserialize(data)
  {
    hide Number32, Number64;
    if |data| < FIXED_SIZE {
      return Rejected;
    }
    var offset := 0;
    var serverLength := Number32(data);
    offset := offset + 4;
    if Sum32(offset + serverLength + 4 + 1 + 16) > |data| {
      return Rejected;
    }
    if offset + serverLength + 4 > |data| {
      return OutOfBounds;
    }
    var server := data[offset..offset + serverLength];
    offset := offset + serverLength;
    var userLength := Number32(data[offset..]);
    offset := offset + 4;
    if Sum32(offset + userLength + 1 + 16) > |data| {
      return Rejected;
    }
    ghost var rest := data[4 + serverLength..];
    if offset + userLength + 1 > |data| {
      return OutOfBounds;
    }
    var user := data[offset..offset + userLength];
    assert rest[4..] == data[offset..];
    assert user == rest[4..4 + userLength];
    offset := offset + userLength;
    ghost var tail := rest[4 + userLength..];
    assert tail == data[offset..];
    var kind := if data[offset] == 0 as char then Access else Refresh;
    offset := offset + 1;
    if offset + 16 > |data| {
      return Rejected;
    }
    assert data[offset..] == tail[1..] && data[offset + 8..] == tail[9..];
    var creation := ReadTimestamp(data[offset..]);
    var expiry := ReadTimestamp(data[offset + 8..]);
    result := Decoded(Payload(server, user, kind, creation, expiry));
  }
}
