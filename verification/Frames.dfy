/**
 The binary frame codec: a 12-byte header of three big-endian 32-bit numbers and a payload.
 */
module Frames {
  import opened Text

  const HEADER_SIZE: nat := 12
  const MAX_PAYLOAD_SIZE: nat := 1048576

  const REGISTRATION: nat := 0
  const UNREGISTRATION: nat := 1
  const REQUEST: nat := 2
  const HEARTBEAT: nat := 6
  const ERROR: nat := 7

  /** A frame. `kind` is the frame type's number, which the decoder takes as it comes. */
  datatype Frame = Frame(kind: int, id: int, length: int, payload: string)

  predicate IsUint32(n: int) {
    0 <= n < 0x1_0000_0000
  }

  predicate HasRange(f: Frame) {
    IsUint32(f.kind) && IsUint32(f.id) && IsUint32(f.length)
  }

  /** A frame whose length field tells the truth and is small enough to be sent. */
  predicate WellFormed(f: Frame) {
    HasRange(f) && f.length == |f.payload| <= MAX_PAYLOAD_SIZE
  }

  // ---------------------------------------------------------------- big-endian numbers

  function Byte(n: int): (c: char)
    ensures c as int == n % 256
  {
    (n % 256) as char
  }

  function Bytes32(n: int): (s: string)
    requires IsUint32(n)
    ensures |s| == 4 && IsBytes(s)
  {
    [Byte(n / 0x100_0000), Byte(n / 0x1_0000), Byte(n / 0x100), Byte(n)]
  }

  /** The number in the first four bytes of `s`. */
  function Number32(s: string): (n: int)
    requires |s| >= 4
    ensures IsUint32(n)
  {
    Octet(s[0]) * 0x100_0000 + Octet(s[1]) * 0x1_0000 + Octet(s[2]) * 0x100 + Octet(s[3])
  }

  lemma Bytes32Inverse(n: int, rest: string)
    requires IsUint32(n)
    ensures Number32(Bytes32(n) + rest) == n
  {
    var s := Bytes32(n) + rest;
    assert n / 0x1_0000 == n / 0x100 / 0x100 && n / 0x100_0000 == n / 0x1_0000 / 0x100;
    assert s[0] == Byte(n / 0x100_0000) && s[1] == Byte(n / 0x1_0000) && s[2] == Byte(n / 0x100) && s[3] == Byte(n);
  }

  lemma Number32Inverse(s: string)
    requires |s| >= 4 && IsBytes(s)
    ensures Bytes32(Number32(s)) == s[..4]
  {
    var a, b, c, d := s[0] as int, s[1] as int, s[2] as int, s[3] as int;
    var n := Number32(s);
    DivMod(a * 0x1_0000 + b * 0x100 + c, 0x100, d);
    DivMod(a * 0x100 + b, 0x1_0000, c * 0x100 + d);
    DivMod(a, 0x100_0000, b * 0x1_0000 + c * 0x100 + d);
    DivMod(a * 0x100 + b, 0x100, c);
    DivMod(a, 0x100, b);
    assert n == a * 0x100_0000 + b * 0x1_0000 + c * 0x100 + d;
    assert Bytes32(n) == [s[0], s[1], s[2], s[3]];
  }

  // ---------------------------------------------------------------- the codec

  function Header(f: Frame): (s: string)
    requires HasRange(f)
    ensures |s| == HEADER_SIZE
  {
    Bytes32(f.kind) + Bytes32(f.id) + Bytes32(f.length)
  }

  function Encode(f: Frame): (s: string)
    requires HasRange(f) && f.length <= |f.payload|
    ensures |s| == HEADER_SIZE + f.length
  {
    Header(f) + f.payload[..f.length]
  }

  /** The payload length a buffer announces. */
  function Announced(s: string): (n: nat)
    requires |s| >= HEADER_SIZE
    ensures IsUint32(n)
  {
    Number32(s[8..])
  }

  predicate HasComplete(s: string) {
    |s| >= HEADER_SIZE && Announced(s) <= MAX_PAYLOAD_SIZE && |s| >= HEADER_SIZE + Announced(s)
  }

  /** The end of the first frame in a buffer that has one. */
  function FrameEnd(s: string): (n: nat)
    requires HasComplete(s)
    ensures HEADER_SIZE <= n <= |s|
  {
    HEADER_SIZE + Announced(s)
  }

  function Decode(s: string): (f: Frame)
    requires HasComplete(s)
    ensures WellFormed(f)
  {
    Frame(Number32(s), Number32(s[4..]), Announced(s), s[HEADER_SIZE..FrameEnd(s)])
  }

  lemma HeaderFields(f: Frame, rest: string)
    requires HasRange(f)
    ensures var s := Header(f) + rest;
            Number32(s) == f.kind && Number32(s[4..]) == f.id && Number32(s[8..]) == f.length
  {
    var s := Header(f) + rest;
    assert s == Bytes32(f.kind) + (Bytes32(f.id) + Bytes32(f.length) + rest);
    assert s[4..] == Bytes32(f.id) + (Bytes32(f.length) + rest);
    assert s[8..] == Bytes32(f.length) + rest;
    Bytes32Inverse(f.kind, Bytes32(f.id) + Bytes32(f.length) + rest);
    Bytes32Inverse(f.id, Bytes32(f.length) + rest);
    Bytes32Inverse(f.length, rest);
  }

  /** A number's four bytes, most significant first. */
  lemma BigEndian(n: int)
    requires IsUint32(n)
    ensures var b := Bytes32(n);
            b[0] as int * 16777216 + b[1] as int * 65536 + b[2] as int * 256 + b[3] as int == n
  {
    Bytes32Inverse(n, "");
    assert Bytes32(n) + "" == Bytes32(n);
  }

  /**
   The bytes on the wire, as the protocol lays them out: kind, identifier and payload length as big-endian
   32-bit numbers in the bytes 0-3, 4-7 and 8-11, and the payload from byte 12 on.
   */
  lemma WireLayout(f: Frame)
    requires 0 <= f.kind < 4294967296 && 0 <= f.id < 4294967296 && f.length == |f.payload| <= 1048576
    ensures var s := Encode(f);
            && |s| == 12 + |f.payload| && s[12..] == f.payload
            && s[0] as int * 16777216 + s[1] as int * 65536 + s[2] as int * 256 + s[3] as int == f.kind
            && s[4] as int * 16777216 + s[5] as int * 65536 + s[6] as int * 256 + s[7] as int == f.id
            && s[8] as int * 16777216 + s[9] as int * 65536 + s[10] as int * 256 + s[11] as int == f.length
  {
    BigEndian(f.kind);
    BigEndian(f.id);
    BigEndian(f.length);
    hide Bytes32;
    assert f.payload[..f.length] == f.payload;
  }

  /** A buffer of bytes holds a complete frame exactly when the length it announces is within a megabyte and has arrived. */
  lemma CompleteExactly(s: string)
    requires IsBytes(s)
    ensures HasComplete(s) <==>
              && |s| >= 12
              && var n := s[8] as int * 16777216 + s[9] as int * 65536 + s[10] as int * 256 + s[11] as int;
                 n <= 1048576 && |s| >= 12 + n
  {
    if |s| >= 12 {
      assert s[8..][0] == s[8] && s[8..][1] == s[9] && s[8..][2] == s[10] && s[8..][3] == s[11];
    }
  }

  /** An encoded frame is decoded as itself, whatever bytes follow it. */
  lemma DecodeEncode(f: Frame, rest: string)
    requires WellFormed(f)
    ensures HasComplete(Encode(f) + rest)
    ensures Decode(Encode(f) + rest) == f
    ensures FrameEnd(Encode(f) + rest) == |Encode(f)|
  {
    var s := Encode(f) + rest;
    assert s == Header(f) + (f.payload[..f.length] + rest);
    HeaderFields(f, f.payload[..f.length] + rest);
    assert s[HEADER_SIZE..HEADER_SIZE + f.length] == f.payload;
  }

  /** Decoding loses nothing: encoding the decoded frame gives back the bytes it was read from. */
  lemma EncodeDecode(s: string)
    requires HasComplete(s) && IsBytes(s)
    ensures Encode(Decode(s)) == s[..FrameEnd(s)]
  {
    Number32Inverse(s);
    Number32Inverse(s[4..]);
    Number32Inverse(s[8..]);
    assert s[..12] == s[..4] + s[4..][..4] + s[8..][..4];
    assert s[..FrameEnd(s)] == s[..12] + s[12..FrameEnd(s)];
  }

  /** Once a buffer has a complete frame, more bytes change neither the frame nor its end. */
  lemma DecodeExtends(s: string, more: string)
    requires HasComplete(s)
    ensures HasComplete(s + more)
    ensures Decode(s + more) == Decode(s) && FrameEnd(s + more) == FrameEnd(s)
  {
    var t := s + more;
    assert forall i :: 0 <= i < |s| ==> t[i] == s[i];
    assert t[4..][..4] == s[4..][..4] && t[8..][..4] == s[8..][..4];
    assert Announced(t) == Announced(s);
    assert t[HEADER_SIZE..FrameEnd(s)] == s[HEADER_SIZE..FrameEnd(s)];
  }

  function Zeros(n: nat): (s: string)
    ensures |s| == n
  {
    seq(n, i => 0 as char)
  }

  /** The buffer with the missing part of its header taken as zero. */
  function ZeroExtended(s: string): (t: string)
    ensures |t| >= HEADER_SIZE && s <= t
  {
    if |s| >= HEADER_SIZE then s else s + Zeros(HEADER_SIZE - |s|)
  }

  lemma AnnouncedExtends(s: string, more: string)
    requires |s| >= HEADER_SIZE
    ensures Announced(s + more) == Announced(s)
  {
    assert (s + more)[8..] == s[8..] + more;
  }

  /** Missing header bytes can only make the announced length larger. */
  lemma AnnouncedAtLeast(s: string, more: string)
    requires |s + more| >= HEADER_SIZE
    ensures Announced(ZeroExtended(s)) <= Announced(s + more)
  {
    if |s| >= HEADER_SIZE {
      AnnouncedExtends(s, more);
    } else {
      var z, t := ZeroExtended(s), s + more;
      forall i | 8 <= i < 12 ensures Octet(z[i]) <= Octet(t[i]) {
        if i < |s| {
          assert z[i] == s[i] == t[i];
        } else {
          assert z[i] == Zeros(HEADER_SIZE - |s|)[i - |s|] == 0 as char;
        }
      }
      assert z[8..][0] == z[8] && z[8..][1] == z[9] && z[8..][2] == z[10] && z[8..][3] == z[11];
      assert t[8..][0] == t[8] && t[8..][1] == t[9] && t[8..][2] == t[10] && t[8..][3] == t[11];
    }
  }

  /**
   A buffer can still grow into a complete frame exactly when the part of the header it has
   announces a payload within the limit. An oversize announcement blocks the stream for good.
   */
  lemma CanComplete(s: string)
    ensures (exists more :: HasComplete(s + more)) <==> Announced(ZeroExtended(s)) <= MAX_PAYLOAD_SIZE
  {
    var z := ZeroExtended(s);
    if Announced(z) <= MAX_PAYLOAD_SIZE {
      var padding := Zeros(Announced(z));
      AnnouncedExtends(z, padding);
      var more := z[|s|..] + padding;
      assert s + more == z + padding;
      assert HasComplete(s + more);
    } else {
      forall more ensures !HasComplete(s + more) {
        if |s + more| >= HEADER_SIZE {
          AnnouncedAtLeast(s, more);
        }
      }
    }
  }

  /** For example a header that announces one byte more than the limit. */
  lemma OversizeBlocks(more: string)
    ensures !HasComplete(Header(Frame(REQUEST, 0, MAX_PAYLOAD_SIZE + 1, "")) + more)
  {
    HeaderFields(Frame(REQUEST, 0, MAX_PAYLOAD_SIZE + 1, ""), more);
  }

  // ---------------------------------------------------------------- streams of frames

  predicate AllWellFormed(fs: seq<Frame>) {
    forall i :: 0 <= i < |fs| ==> WellFormed(fs[i])
  }

  function EncodeAll(fs: seq<Frame>): (s: string)
    requires AllWellFormed(fs)
  {
    if fs == [] then ""
    else
      assert WellFormed(fs[0]);
      Encode(fs[0]) + EncodeAll(fs[1..])
  }

  lemma {:induction false} EncodeAllAppend(fs: seq<Frame>, f: Frame)
    requires WellFormed(f) && AllWellFormed(fs)
    ensures EncodeAll(fs + [f]) == EncodeAll(fs) + Encode(f)
  {
    if fs == [] {
      assert [f][1..] == [];
      assert EncodeAll([f]) == Encode(f) + "";
    } else {
      assert (fs + [f])[1..] == fs[1..] + [f];
      EncodeAllAppend(fs[1..], f);
    }
  }

  lemma UnfoldEncodeAll(fs: seq<Frame>)
    requires AllWellFormed(fs)
    ensures fs == [] ==> EncodeAll(fs) == ""
    ensures fs != [] ==> WellFormed(fs[0]) && AllWellFormed(fs[1..]) && HasRange(fs[0]) && fs[0].length <= |fs[0].payload|
    ensures fs != [] ==> EncodeAll(fs) == Encode(fs[0]) + EncodeAll(fs[1..])
  {
  }

  /** The stream starts with its first frame, and continues with the others. */
  lemma FirstOf(fs: seq<Frame>, partial: string)
    requires fs != [] && AllWellFormed(fs)
    ensures HasComplete(EncodeAll(fs) + partial) && Decode(EncodeAll(fs) + partial) == fs[0]
    ensures (EncodeAll(fs) + partial)[FrameEnd(EncodeAll(fs) + partial)..] == EncodeAll(fs[1..]) + partial
  {
    hide *;
    UnfoldEncodeAll(fs);
    var rest := EncodeAll(fs[1..]) + partial;
    assert EncodeAll(fs) + partial == Encode(fs[0]) + rest;
    DecodeEncode(fs[0], rest);
    assert (Encode(fs[0]) + rest)[|Encode(fs[0])|..] == rest;
  }

  /**
   The stream is uniquely decodable: when a received part of it holds a complete frame, that frame
   is the next one encoded, and the bytes after it are those of the remaining frames.
   */
  lemma NextFrame(fs: seq<Frame>, received: string, more: string)
    requires AllWellFormed(fs)
    requires received + more == EncodeAll(fs)
    requires HasComplete(received)
    ensures fs != [] && Decode(received) == fs[0]
    ensures received[FrameEnd(received)..] + more == EncodeAll(fs[1..])
  {
    DecodeExtends(received, more);
    hide *;
    if fs == [] {
      UnfoldEncodeAll(fs);
      NothingComplete(received);
    }
    FirstOf(fs, "");
    assert EncodeAll(fs) + "" == EncodeAll(fs);
    assert EncodeAll(fs[1..]) + "" == EncodeAll(fs[1..]);
    var n := FrameEnd(received);
    assert received[n..] + more == (received + more)[n..];
  }

  lemma NothingComplete(s: string)
    requires HasComplete(s)
    ensures |s| >= HEADER_SIZE
  {
  }

  /** A received part of the stream without a complete frame is shorter than the next frame. */
  lemma NoFrameYet(fs: seq<Frame>, received: string, more: string)
    requires fs != [] && AllWellFormed(fs) && WellFormed(fs[0])
    requires received + more == EncodeAll(fs)
    requires !HasComplete(received)
    ensures |received| < |Encode(fs[0])|
  {
    hide *;
    UnfoldEncodeAll(fs);
    var e := Encode(fs[0]);
    if |received| >= |e| {
      assert received[..|e|] == (received + more)[..|e|] == e;
      var rest := received[|e|..];
      assert received == e + rest;
      DecodeEncode(fs[0], rest);
    }
  }
}
