/** Machine integers of the wire format and the big-endian primitives of common/protocol.c. */
module Bytes {
  newtype byte = x: int | 0 <= x < 0x100          // uint8_t
  type U16 = x: int | 0 <= x < 0x1_0000           // uint16_t
  type U32 = x: int | 0 <= x < 0x1_0000_0000      // uint32_t
  type I16 = x: int | -0x8000 <= x < 0x8000       // int16_t

  function PutU16(v: U16): (bytes: seq<byte>)
    ensures |bytes| == 2
  {
    [(v / 0x100) as byte, (v % 0x100) as byte]
  }

  function GetU16(bytes: seq<byte>): U16
    requires |bytes| >= 2
  {
    0x100 * bytes[0] as int + bytes[1] as int
  }

  function PutU32(v: U32): (bytes: seq<byte>)
    ensures |bytes| == 4
  {
    [(v / 0x100_0000) as byte, (v / 0x1_0000 % 0x100) as byte, (v / 0x100 % 0x100) as byte, (v % 0x100) as byte]
  }

  function GetU32(bytes: seq<byte>): U32
    requires |bytes| >= 4
  {
    0x100_0000 * bytes[0] as int + 0x1_0000 * bytes[1] as int + 0x100 * bytes[2] as int + bytes[3] as int
  }

  // The casts (uint16_t)x and (int16_t)x between the signed and the unsigned 16-bit type.
  function ToUnsigned16(x: I16): (u: U16)
    ensures u == x || u == x + 0x1_0000
  {
    if x < 0 then x + 0x1_0000 else x
  }

  function ToSigned16(x: U16): (i: I16)
    ensures i == x || i == x - 0x1_0000
  {
    if x >= 0x8000 then x - 0x1_0000 else x
  }

  // Bytes as a number, the most significant first.
  function Number(bytes: seq<byte>): nat {
    if bytes == [] then 0 else 0x100 * Number(bytes[..|bytes| - 1]) + bytes[|bytes| - 1] as int
  }

  // What is written and read are the two and the four bytes of the number, the most significant first.
  lemma IsBigEndian(v: U16, w: U32, rest: seq<byte>)
    ensures Number(PutU16(v)) == v && Number(PutU32(w)) == w
    ensures |rest| >= 2 ==> GetU16(rest) == Number(rest[..2])
    ensures |rest| >= 4 ==> GetU32(rest) == Number(rest[..4])
  {
    Number2(PutU16(v));
    Number4(PutU32(w));
    if |rest| >= 2 { Number2(rest[..2]); }
    if |rest| >= 4 { Number4(rest[..4]); }
    U32RoundTrip(w, []);
    assert PutU32(w) + [] == PutU32(w);
  }

  lemma Number2(b: seq<byte>)
    requires |b| == 2
    ensures Number(b) == 0x100 * b[0] as int + b[1] as int
  {
    assert b[..1][..0] == [] && Number(b[..1]) == b[0] as int;
  }

  lemma Number4(b: seq<byte>)
    requires |b| == 4
    ensures Number(b) == 0x100_0000 * b[0] as int + 0x1_0000 * b[1] as int + 0x100 * b[2] as int + b[3] as int
  {
    assert b[..3][..2] == b[..2] && b[..3][2] == b[2];
    Number2(b[..2]);
    assert Number(b[..3]) == 0x100 * Number(b[..2]) + b[2] as int;
  }

  lemma U16RoundTrip(v: U16, bytes: seq<byte>)
    requires |bytes| == 2
    ensures GetU16(PutU16(v)) == v
    ensures PutU16(GetU16(bytes)) == bytes
  {
  }

  lemma U32RoundTrip(v: U32, rest: seq<byte>)
    ensures GetU32(PutU32(v) + rest) == v
  {
    var bytes := PutU32(v) + rest;
    assert bytes[0] == PutU32(v)[0] && bytes[1] == PutU32(v)[1] && bytes[2] == PutU32(v)[2] && bytes[3] == PutU32(v)[3];
    assert v == 0x100 * (v / 0x100) + v % 0x100;
    assert v / 0x100 == 0x100 * (v / 0x1_0000) + v / 0x100 % 0x100;
    assert v / 0x1_0000 == 0x100 * (v / 0x100_0000) + v / 0x1_0000 % 0x100;
  }
}
