/**
 The check of common/protocol.c: crc16_update, and what it computes.

 A uint16_t register is its sixteen bits, most significant first, so that bit k is the coefficient
 of x^(15-k).
 */
module Crc {
  import opened Bytes
  import opened Bits

  type Register = r: seq<bool> | |r| == 16 witness Zeros(16)

  const PRESET: Register := [true, true, true, true, true, true, true, true,
                             true, true, true, true, true, true, true, true]

  // The generator x^16 + x^12 + x^5 + 1 without its leading term, 0x1021.
  const GENERATOR: Register := [false, false, false, true, false, false, false, false,
                                false, false, true, false, false, false, false, true]

  function ByteBits(b: byte): (bits: seq<bool>)
    ensures |bits| == 8
  {
    ToBits(b as int, 8)
  }

  // (uint16_t)b << 8
  function HighByte(b: byte): Register { ToBits(0x100 * b as int, 16) }

  // One pass of the inner loop.
  function Step(c: Register): Register {
    if c[0] then Xor(ShiftLeft(c), GENERATOR) else ShiftLeft(c)
  }

  function Steps(c: Register, n: nat): Register
    decreases n
  {
    if n == 0 then c else Steps(Step(c), n - 1)
  }

  function Absorb(c: Register, b: byte): Register { Steps(Xor(c, HighByte(b)), 8) }

  function Update(c: Register, data: seq<byte>): Register
    decreases |data|
  {
    if data == [] then c else Update(Absorb(c, data[0]), data[1..])
  }

  // The outer loop of crc16_update.
  method Crc16Update(crc: Register, data: seq<byte>) returns (result: Register)
    ensures result == Update(crc, data)
  {
    result := crc;
    for i := 0 to |data|
      invariant Update(result, data[i..]) == Update(crc, data)
    {
      result := ReduceByte(Xor(result, HighByte(data[i])));
      assert data[i..][1..] == data[i + 1..];
    }
  }

  // The inner loop of crc16_update.
  method ReduceByte(absorbed: Register) returns (crc: Register)
    ensures crc == Steps(absorbed, 8)
  {
    crc := absorbed;
    for bit := 0 to 8
      invariant Steps(crc, 8 - bit) == Steps(absorbed, 8)
    {
      if crc[0] {
        crc := Xor(ShiftLeft(crc), GENERATOR);
      } else {
        crc := ShiftLeft(crc);
      }
    }
  }

  // Protocol_Crc16.
  method Crc16(data: seq<byte>) returns (crc: U16)
    ensures crc == ToNumber(Update(PRESET, data))
  {
    var register := Crc16Update(PRESET, data);
    crc := ToWord(register);
  }

  function ToWord(c: Register): U16 {
    PowerValues();
    ToNumber(c)
  }

  // The two constants are the ones the code writes.
  lemma Constants()
    ensures ToWord(PRESET) == 0xFFFF && ToWord(GENERATOR) == 0x1021
  {
    RegisterValue(PRESET);
    RegisterValue(GENERATOR);
  }

  function Digit(c: Register, k: nat): nat { if k < 16 && c[k] then 1 else 0 }

  lemma AppendBit(c: Register, k: nat)
    requires k < 16
    ensures ToNumber(c[..k + 1]) == 2 * ToNumber(c[..k]) + Digit(c, k)
  {
    assert c[..k + 1][..k] == c[..k];
  }

  lemma RegisterValue(c: Register)
    ensures ToNumber(c) == 0x8000 * Digit(c, 0) + 0x4000 * Digit(c, 1) + 0x2000 * Digit(c, 2) + 0x1000 * Digit(c, 3)
      + 0x800 * Digit(c, 4) + 0x400 * Digit(c, 5) + 0x200 * Digit(c, 6) + 0x100 * Digit(c, 7)
      + 0x80 * Digit(c, 8) + 0x40 * Digit(c, 9) + 0x20 * Digit(c, 10) + 0x10 * Digit(c, 11)
      + 8 * Digit(c, 12) + 4 * Digit(c, 13) + 2 * Digit(c, 14) + Digit(c, 15)
  {
    assert c[..16] == c && c[..0] == [];
    AppendBit(c, 0); AppendBit(c, 1); AppendBit(c, 2); AppendBit(c, 3);
    AppendBit(c, 4); AppendBit(c, 5); AppendBit(c, 6); AppendBit(c, 7);
    AppendBit(c, 8); AppendBit(c, 9); AppendBit(c, 10); AppendBit(c, 11);
    AppendBit(c, 12); AppendBit(c, 13); AppendBit(c, 14); AppendBit(c, 15);
  }

  lemma {:induction false} UpdateConcat(c: Register, x: seq<byte>, y: seq<byte>)
    ensures Update(c, x + y) == Update(Update(c, x), y)
    decreases |x|
  {
    if x == [] {
      assert x + y == y;
    } else {
      assert (x + y)[1..] == x[1..] + y;
      UpdateConcat(Absorb(c, x[0]), x[1..], y);
    }
  }

  // ---- The register one message bit at a time ----

  function MessageBits(data: seq<byte>): (bits: seq<bool>)
    ensures |bits| == 8 * |data|
  {
    if data == [] then [] else ByteBits(data[0]) + MessageBits(data[1..])
  }

  // Shift in one message bit.
  function Feed(c: Register, bit: bool): Register {
    Step(c[0 := c[0] != bit])
  }

  function FeedBits(c: Register, bits: seq<bool>): Register
    decreases |bits|
  {
    if bits == [] then c else FeedBits(Feed(c, bits[0]), bits[1..])
  }

  lemma FeedAt(c: Register, bit: bool, i: nat)
    requires i < 16
    ensures Feed(c, bit)[i] == ((i < 15 && c[i + 1]) != ((c[0] != bit) && (i == 3 || i == 10 || i == 15)))
  {
  }

  // Bits XORed into the top of the register.
  function XorTop(c: Register, bits: seq<bool>): Register
    requires |bits| <= 16
  {
    Xor(c, bits + Zeros(16 - |bits|))
  }

  lemma FeedXorTop(c: Register, bits: seq<bool>)
    requires 0 < |bits| <= 16
    ensures Step(XorTop(c, bits)) == XorTop(Feed(c, bits[0]), bits[1..])
  {
    var l, r := Step(XorTop(c, bits)), XorTop(Feed(c, bits[0]), bits[1..]);
    forall i | 0 <= i < 16 ensures l[i] == r[i] {
      assert XorTop(c, bits)[0 := XorTop(c, bits)[0] != false] == XorTop(c, bits);
      FeedAt(XorTop(c, bits), false, i);
      FeedAt(c, bits[0], i);
    }
  }

  // Bits XORed in together and then shifted through act like bits fed one at a time.
  lemma {:induction false} XorTopIsFeed(c: Register, bits: seq<bool>)
    requires |bits| <= 16
    ensures Steps(XorTop(c, bits), |bits|) == FeedBits(c, bits)
    decreases |bits|
  {
    if bits == [] {
      assert XorTop(c, bits) == c;
    } else {
      FeedXorTop(c, bits);
      XorTopIsFeed(Feed(c, bits[0]), bits[1..]);
    }
  }

  lemma {:induction false} ShiftedBits(n: nat, j: nat, k: nat, p: nat)
    requires p == n * Power(k)
    ensures ToBits(p, j + k) == ToBits(n, j) + Zeros(k)
  {
    if k > 0 {
      Doubled(n, Power(k - 1), Power(k));
      ShiftedBits(n, j, k - 1, n * Power(k - 1));
      assert Zeros(k) == Zeros(k - 1) + [false];
    }
  }

  lemma AbsorbIsFeed(c: Register, b: byte)
    ensures Absorb(c, b) == FeedBits(c, ByteBits(b))
  {
    HighByteBits(b);
    assert Xor(c, HighByte(b)) == XorTop(c, ByteBits(b));
    XorTopIsFeed(c, ByteBits(b));
  }

  lemma HighByteBits(b: byte)
    ensures HighByte(b) == ByteBits(b) + Zeros(8)
  {
    PowerValues();
    ShiftedBits(b as int, 8, 8, 0x100 * b as int);
  }

  lemma {:induction false} FeedConcat(c: Register, x: seq<bool>, y: seq<bool>)
    ensures FeedBits(c, x + y) == FeedBits(FeedBits(c, x), y)
    decreases |x|
  {
    if x == [] {
      assert x + y == y;
    } else {
      assert (x + y)[1..] == x[1..] + y;
      FeedConcat(Feed(c, x[0]), x[1..], y);
    }
  }

  // The byte-wise loops and the bit-serial register agree on every message.
  lemma {:induction false} UpdateIsBitSerial(c: Register, data: seq<byte>)
    ensures Update(c, data) == FeedBits(c, MessageBits(data))
    decreases |data|
  {
    if data != [] {
      AbsorbIsFeed(c, data[0]);
      UpdateIsBitSerial(Absorb(c, data[0]), data[1..]);
      FeedConcat(c, ByteBits(data[0]), MessageBits(data[1..]));
    }
  }
}
