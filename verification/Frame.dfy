/** The frame envelope of common/protocol.c: START, then length, payload and check with byte stuffing. */
module Frame {
  import opened Bytes
  import opened Bits
  import opened Crc
  import opened CrcTheory

  const START: byte := 0x7E
  const ESCAPE: byte := 0x7D

  // b ^ PROTO_FRAME_ESCAPE_XOR
  function XorEscape(b: byte): byte {
    if b / 0x20 % 2 == 1 then b - 0x20 else b + 0x20
  }

  function StuffByte(b: byte): (s: seq<byte>)
    ensures 1 <= |s| <= 2
  {
    if b == START || b == ESCAPE then [ESCAPE, XorEscape(b)] else [b]
  }

  function Stuff(data: seq<byte>): (s: seq<byte>)
    ensures |data| <= |s| <= 2 * |data|
  {
    if data == [] then [] else StuffByte(data[0]) + Stuff(data[1..])
  }

  // Byte stuffing in numerals: 0x7E stands as 7D 5E, 0x7D as 7D 5D, every other byte for itself.
  function Stuffed(data: seq<byte>): seq<byte> {
    if data == [] then [] else
    (if data[0] == 0x7E then [0x7D, 0x5E] else if data[0] == 0x7D then [0x7D, 0x5D] else [data[0]]) + Stuffed(data[1..])
  }

  lemma {:induction false} StuffIsStuffed(data: seq<byte>)
    ensures Stuff(data) == Stuffed(data)
  {
    if data != [] { StuffIsStuffed(data[1..]); }
  }

  type Payload = p: seq<byte> | |p| < 0x1_0000 witness []

  // A frame whose two check bytes need not be right.
  function RawFrame(payload: Payload, check: seq<byte>): seq<byte> {
    [START] + Stuff(PutU16(|payload|) + payload + check)
  }

  function CheckBytes(payload: Payload): (check: seq<byte>)
    ensures |check| == 2
  {
    PutU16(ToWord(Update(Update(PRESET, PutU16(|payload|)), payload)))
  }

  function Encode(payload: Payload): seq<byte> {
    RawFrame(payload, CheckBytes(payload))
  }

  // A frame byte for byte: 0x7E, then stuffed length, payload and the CRC of both, each number with its most
  // significant byte first.
  lemma FrameInNumerals(payload: Payload)
    ensures var length: seq<byte> := [(|payload| / 0x100) as byte, (|payload| % 0x100) as byte];
      var crc := ToWord(Update(PRESET, length + payload));
      Encode(payload) == [0x7E] + Stuffed(length + payload + [(crc / 0x100) as byte, (crc % 0x100) as byte])
  {
    hide Update, ToWord, Stuff, Stuffed;
    UpdateConcat(PRESET, PutU16(|payload|), payload);
    StuffIsStuffed(PutU16(|payload|) + payload + CheckBytes(payload));
  }

  datatype Reading = Short | Got(data: seq<byte>, next: nat)

  function DestuffByte(input: seq<byte>, i: nat): (r: Reading)
    ensures r.Got? ==> |r.data| == 1 && i < r.next <= |input|
  {
    if i >= |input| then Short
    else if input[i] != ESCAPE then Got([input[i]], i + 1)
    else if i + 1 >= |input| then Short
    else Got([XorEscape(input[i + 1])], i + 2)
  }

  // n de-stuffed bytes from position i on.
  function Destuff(input: seq<byte>, i: nat, n: nat): (r: Reading)
    ensures r.Got? ==> |r.data| == n && i <= r.next && (i <= |input| ==> r.next <= |input|)
  {
    if n == 0 then Got([], i) else
    match Destuff(input, i, n - 1)
    case Short => Short
    case Got(data, j) =>
      match DestuffByte(input, j)
      case Short => Short
      case Got(last, k) => Got(data + last, k)
  }

  function FindStart(input: seq<byte>, i: nat): (s: nat)
    requires i <= |input|
    ensures i <= s <= |input|
    ensures forall j :: i <= j < s ==> input[j] != START
    ensures s < |input| ==> input[s] == START
    decreases |input| - i
  {
    if i < |input| && input[i] != START then FindStart(input, i + 1) else i
  }

  datatype Verdict =
    | Incomplete
    | TooSmall
    | Malformed(consumed: nat)
    | Complete(payload: seq<byte>, consumed: nat)
  {
    predicate Consumes() { Malformed? || Complete? }
  }

  function Decode(input: seq<byte>, cap: nat): (v: Verdict)
    ensures v.Consumes() ==> 0 < v.consumed <= |input|
    ensures v.Complete? ==> |v.payload| <= cap
  {
    var s := FindStart(input, 0);
    if s >= |input| then Incomplete else DecodeAfterStart(input, s + 1, cap)
  }

  function DecodeAfterStart(input: seq<byte>, i: nat, cap: nat): (v: Verdict)
    ensures v.Consumes() && i <= |input| ==> i < v.consumed <= |input|
    ensures v.Complete? ==> |v.payload| <= cap
  {
    match Destuff(input, i, 2)
    case Short => Incomplete
    case Got(lenBytes, j) =>
      if GetU16(lenBytes) > cap then TooSmall else DecodeBody(input, lenBytes, j)
  }

  function DecodeBody(input: seq<byte>, lenBytes: seq<byte>, i: nat): (v: Verdict)
    requires |lenBytes| == 2
    ensures v.Consumes() && i <= |input| ==> i < v.consumed <= |input|
    ensures v.Complete? ==> |v.payload| == GetU16(lenBytes)
  {
    match Destuff(input, i, GetU16(lenBytes))
    case Short => Incomplete
    case Got(payload, j) =>
      match Destuff(input, j, 2)
      case Short => Incomplete
      case Got(check, k) =>
        if CheckMatches(lenBytes, payload, check) then Complete(payload, k) else Malformed(k)
  }

  // ---- Stuffing ----

  lemma {:induction false} StuffConcat(x: seq<byte>, y: seq<byte>)
    ensures Stuff(x + y) == Stuff(x) + Stuff(y)
  {
    if x == [] {
      assert x + y == y;
    } else {
      assert (x + y)[1..] == x[1..] + y;
      StuffConcat(x[1..], y);
    }
  }

  lemma {:induction false} StuffHidesStart(data: seq<byte>)
    ensures START !in Stuff(data)
  {
    if data != [] { StuffHidesStart(data[1..]); }
  }

  lemma {:induction false} DestuffConcat(input: seq<byte>, i: nat, m: nat, n: nat)
    ensures Destuff(input, i, m + n) ==
      match Destuff(input, i, m)
      case Short => Short
      case Got(x, j) => (match Destuff(input, j, n) case Short => Short case Got(y, k) => Got(x + y, k))
    decreases n
  {
    if n > 0 {
      DestuffConcat(input, i, m, n - 1);
      match Destuff(input, i, m)
      case Short =>
      case Got(x, j) =>
        match Destuff(input, j, n - 1) {
          case Short =>
          case Got(y, k) =>
            match DestuffByte(input, k) {
              case Short =>
              case Got(z, l) => assert x + (y + z) == (x + y) + z;
            }
        }
    } else {
      match Destuff(input, i, m) {
        case Short =>
        case Got(x, j) => assert x + [] == x;
      }
    }
  }

  predicate Holds(input: seq<byte>, i: nat, s: seq<byte>) {
    i + |s| <= |input| && input[i..i + |s|] == s
  }

  lemma HoldsParts(input: seq<byte>, i: nat, x: seq<byte>, y: seq<byte>)
    requires Holds(input, i, x + y)
    ensures Holds(input, i, x) && Holds(input, i + |x|, y)
  {
    assert input[i..i + |x|] == (x + y)[..|x|];
    assert input[i + |x|..i + |x| + |y|] == (x + y)[|x|..];
  }

  lemma DestuffStuffByte(input: seq<byte>, i: nat, b: byte)
    requires Holds(input, i, StuffByte(b))
    ensures Destuff(input, i, 1) == Got([b], i + |StuffByte(b)|)
  {
    var s := StuffByte(b);
    assert input[i] == input[i..i + |s|][0];
    assert |s| == 2 ==> input[i + 1] == input[i..i + |s|][1];
    assert Destuff(input, i, 0) == Got([], i);
    assert [] + [b] == [b];
  }

  lemma {:induction false} DestuffStuff(input: seq<byte>, i: nat, data: seq<byte>)
    requires Holds(input, i, Stuff(data))
    ensures Destuff(input, i, |data|) == Got(data, i + |Stuff(data)|)
    decreases |data|
  {
    hide DestuffByte, StuffByte, Holds;
    if data != [] {
      var b, rest := data[0], data[1..];
      HoldsParts(input, i, StuffByte(b), Stuff(rest));
      DestuffStuffByte(input, i, b);
      DestuffStuff(input, i + |StuffByte(b)|, rest);
      DestuffConcat(input, i, 1, |rest|);
      assert [b] + rest == data;
    }
  }

  // Cutting the input short either leaves a reading as it was or makes it short.
  lemma {:induction false} DestuffPrefix(input: seq<byte>, cut: nat, i: nat, n: nat)
    requires i <= cut <= |input|
    ensures Destuff(input[..cut], i, n) ==
      match Destuff(input, i, n)
      case Short => Short
      case Got(data, next) => if next <= cut then Got(data, next) else Short
  {
    if n > 0 { DestuffPrefix(input, cut, i, n - 1); }
  }

  // ---- Round trip ----

  lemma {:induction false} FindStartAfterNoise(input: seq<byte>, n: nat, i: nat)
    requires i <= n < |input| && START !in input[..n] && input[n] == START
    ensures FindStart(input, i) == n
    decreases n - i
  {
    if i < n {
      assert input[i] == input[..n][i];
      FindStartAfterNoise(input, n, i + 1);
    }
  }

  // What any frame decodes to, wherever it stands.
  lemma DecodeRawFrame(noise: seq<byte>, payload: Payload, check: seq<byte>, rest: seq<byte>, cap: nat)
    requires START !in noise && |check| == 2 && |payload| <= cap
    ensures var consumed := |noise| + |RawFrame(payload, check)|;
      Decode(noise + RawFrame(payload, check) + rest, cap) ==
      if CheckMatches(PutU16(|payload|), payload, check) then Complete(payload, consumed) else Malformed(consumed)
  {
    var n, body := |noise|, PutU16(|payload|) + payload + check;
    var input := noise + RawFrame(payload, check) + rest;
    assert input[..n] == noise && input[n] == START;
    FindStartAfterNoise(input, n, 0);
    assert input[n + 1..n + 1 + |Stuff(body)|] == Stuff(body);
    DecodeStuffedBody(input, n + 1, payload, check, cap);
  }

  lemma DecodeStuffedBody(input: seq<byte>, i: nat, payload: Payload, check: seq<byte>, cap: nat)
    requires |check| == 2 && |payload| <= cap
    requires Holds(input, i, Stuff(PutU16(|payload|) + payload + check))
    ensures var consumed := i + |Stuff(PutU16(|payload|) + payload + check)|;
      DecodeAfterStart(input, i, cap) ==
      if CheckMatches(PutU16(|payload|), payload, check) then Complete(payload, consumed) else Malformed(consumed)
  {
    hide Destuff, Stuff, CheckMatches;
    U16RoundTrip(|payload|, check);
    DestuffParts(input, i, PutU16(|payload|), payload, check);
  }

  lemma DestuffParts(input: seq<byte>, i: nat, x: seq<byte>, y: seq<byte>, z: seq<byte>)
    requires Holds(input, i, Stuff(x + y + z))
    ensures var j := i + |Stuff(x)|;
      var k := j + |Stuff(y)|;
      && Destuff(input, i, |x|) == Got(x, j)
      && Destuff(input, j, |y|) == Got(y, k)
      && Destuff(input, k, |z|) == Got(z, i + |Stuff(x + y + z)|)
  {
    hide Destuff, Stuff, Holds;
    StuffConcat(x + y, z);
    HoldsParts(input, i, Stuff(x + y), Stuff(z));
    StuffConcat(x, y);
    HoldsParts(input, i, Stuff(x), Stuff(y));
    DestuffStuff(input, i, x);
    DestuffStuff(input, i + |Stuff(x)|, y);
    DestuffStuff(input, i + |Stuff(x)| + |Stuff(y)|, z);
  }

  // Main result: a frame decodes to its payload whatever precedes (short of a START) and follows it.
  lemma FrameRoundTrip(noise: seq<byte>, payload: Payload, rest: seq<byte>, cap: nat)
    requires START !in noise && |payload| <= cap
    ensures Decode(noise + Encode(payload) + rest, cap) == Complete(payload, |noise| + |Encode(payload)|)
  {
    hide Decode, Update, ToWord, RawFrame;
    U16RoundTrip(ToWord(Update(Update(PRESET, PutU16(|payload|)), payload)), CheckBytes(payload));
    DecodeRawFrame(noise, payload, CheckBytes(payload), rest, cap);
  }

  lemma StartOnlyInFront(payload: Payload, i: nat)
    requires i < |Encode(payload)|
    ensures Encode(payload)[i] == START <==> i == 0
  {
    var body := PutU16(|payload|) + payload + CheckBytes(payload);
    StuffHidesStart(body);
    assert i > 0 ==> Encode(payload)[i] == Stuff(body)[i - 1];
  }

  // Joining in the middle of a frame costs that frame only.
  lemma SelfSynchronising(lost: Payload, cut: nat, payload: Payload, rest: seq<byte>, cap: nat)
    requires 0 < cut <= |Encode(lost)| && |payload| <= cap
    ensures var tail := Encode(lost)[cut..];
      Decode(tail + Encode(payload) + rest, cap) == Complete(payload, |tail| + |Encode(payload)|)
  {
    hide Encode, Decode;
    forall i | cut <= i < |Encode(lost)| ensures Encode(lost)[i] != START { StartOnlyInFront(lost, i); }
    FrameRoundTrip(Encode(lost)[cut..], payload, rest, cap);
  }

  lemma NoStartIsIncomplete(input: seq<byte>, cap: nat)
    requires START !in input
    ensures Decode(input, cap) == Incomplete
  {
  }

  // A declared length above the capacity is reported as soon as it has been read.
  lemma OversizedIsTooSmall(noise: seq<byte>, len: U16, rest: seq<byte>, cap: nat)
    requires START !in noise && len > cap
    ensures Decode(noise + [START] + Stuff(PutU16(len)) + rest, cap) == TooSmall
  {
    var input, n := noise + [START] + Stuff(PutU16(len)) + rest, |noise|;
    assert input[..n] == noise && input[n] == START;
    FindStartAfterNoise(input, n, 0);
    assert input[n + 1..n + 1 + |Stuff(PutU16(len))|] == Stuff(PutU16(len));
    DestuffStuff(input, n + 1, PutU16(len));
    U16RoundTrip(len, PutU16(len));
  }

  lemma OversizedNeedsItsLength(noise: seq<byte>, len: U16, n: nat, cap: nat)
    requires START !in noise && n < |noise + [START] + Stuff(PutU16(len))|
    ensures Decode((noise + [START] + Stuff(PutU16(len)))[..n], cap) == Incomplete
  {
    hide Destuff, Stuff, PutU16;
    var stuffed, s := Stuff(PutU16(len)), |noise|;
    var input := noise + [START] + stuffed;
    FindStartPrefix(input, n, 0);
    assert input[..s] == noise && input[s] == START;
    FindStartAfterNoise(input, s, 0);
    if s < n {
      assert input[s + 1..s + 1 + |stuffed|] == stuffed;
      DestuffStuff(input, s + 1, PutU16(len));
      DestuffPrefix(input, n, s + 1, 2);
    }
  }

  // ---- One wrong bit in the length ----

  // A payload whose frame a single bit error makes two bytes longer, the length bytes staying unescaped.
  predicate Stretchable(payload: Payload) { |payload| % 4 < 2 && |payload| < 0x78 }

  // Its frame, with the bit of value two in the length turned from 0 to 1.
  function Stretched(payload: Payload): seq<byte>
    requires Stretchable(payload)
  {
    [START, 0, (|payload| + 2) as byte] + Stuff(payload + CheckBytes(payload))
  }

  lemma PlainLength(n: nat)
    requires n < 0x7A
    ensures Stuff([0, n as byte]) == [0, n as byte]
  {
    assert [0, n as byte][1..] == [n as byte] && [n as byte][1..] == [];
  }

  lemma StretchedByOneBit(payload: Payload)
    requires Stretchable(payload)
    ensures |Encode(payload)| > 2 && Stretched(payload) == Encode(payload)[2 := (|payload| + 2) as byte]
    ensures Encode(payload)[2] == |payload| as byte && !ToBits(|payload|, 8)[6]
    ensures ToBits(|payload| + 2, 8) == ToBits(|payload|, 8)[6 := true]
  {
    hide Stuff, CheckBytes, ToBits;
    var lenBytes, check := PutU16(|payload|), CheckBytes(payload);
    assert lenBytes == [0, |payload| as byte];
    PlainLength(|payload|);
    StuffConcat(lenBytes, payload + check);
    assert lenBytes + payload + check == lenBytes + (payload + check);
    OneBitApart(|payload|);
  }

  // The decoder takes the START of the next frame, and the byte after it, for the check.
  lemma StretchedSwallowsStart(payload: Payload, next: Payload, rest: seq<byte>, cap: nat)
    requires Stretchable(payload) && |payload| + 2 <= cap && |next| < 0x100
    ensures |Encode(next)| >= 2
    ensures Decode(Stretched(payload) + Encode(next) + rest, cap) == Malformed(|Stretched(payload)| + 2)
  {
    hide Stuff, CheckBytes, CheckMatches, Destuff;
    var lenBytes, body := [0, (|payload| + 2) as byte], payload + CheckBytes(payload);
    var n := |Stretched(payload)|;
    var input := Stretched(payload) + Encode(next) + rest;
    NextInFront(next);
    PlainLength(|payload| + 2);
    assert GetU16(lenBytes) == |payload| + 2;
    assert input[1..3] == lenBytes && input[3..n] == Stuff(body);
    DestuffStuff(input, 1, lenBytes);
    DestuffStuff(input, 3, body);
    assert input[n] == Encode(next)[0] && input[n + 1] == Encode(next)[1];
    TwoPlainBytes(input, n);
    CheckOfIntact(payload);
    LongerReadingIsRejected(payload, CheckBytes(payload));
  }

  lemma NextInFront(next: Payload)
    requires |next| < 0x100
    ensures |Encode(next)| >= 2 && Encode(next)[0] == START && Encode(next)[1] == 0
  {
    assert PutU16(|next|)[0] == 0;
  }

  lemma TwoPlainBytes(input: seq<byte>, i: nat)
    requires i + 2 <= |input| && input[i] == START && input[i + 1] == 0
    ensures Destuff(input, i, 2) == Got([START, 0], i + 2)
  {
    assert Destuff(input, i, 0) == Got([], i);
    assert Destuff(input, i, 1) == Got([] + [START], i + 1);
  }

  lemma CheckOfIntact(payload: Payload)
    requires |payload| < 0x100
    ensures CheckMatches([0, |payload| as byte], payload, CheckBytes(payload))
  {
    assert PutU16(|payload|) == [0, |payload| as byte];
    U16RoundTrip(ToWord(Update(Update(PRESET, PutU16(|payload|)), payload)), CheckBytes(payload));
  }

  // ---- Independence of how the bytes arrive ----

  lemma {:induction false} FindStartPrefix(input: seq<byte>, cut: nat, i: nat)
    requires i <= cut <= |input|
    ensures FindStart(input[..cut], i) == if FindStart(input, i) < cut then FindStart(input, i) else cut
    decreases cut - i
  {
    if i < cut && input[i] != START { FindStartPrefix(input, cut, i + 1); }
  }

  lemma DecodeBodyPrefix(input: seq<byte>, cut: nat, lenBytes: seq<byte>, i: nat)
    requires |lenBytes| == 2 && i <= cut <= |input|
    ensures var v := DecodeBody(input, lenBytes, i);
      DecodeBody(input[..cut], lenBytes, i) == if v.Consumes() && v.consumed <= cut then v else Incomplete
  {
    hide Destuff, CheckMatches;
    DestuffPrefix(input, cut, i, GetU16(lenBytes));
    match Destuff(input, i, GetU16(lenBytes))
    case Short =>
    case Got(payload, j) =>
      if j <= cut { DestuffPrefix(input, cut, j, 2); }
  }

  lemma DecodeAfterStartPrefix(input: seq<byte>, cut: nat, i: nat, cap: nat)
    requires i <= cut <= |input|
    ensures var v := DecodeAfterStart(input, i, cap);
      var w := DecodeAfterStart(input[..cut], i, cap);
      && (w == v || w == Incomplete)
      && (v.Consumes() ==> v.consumed <= |input| && (w == v <==> v.consumed <= cut))
  {
    DestuffPrefix(input, cut, i, 2);
    match Destuff(input, i, 2)
    case Short =>
    case Got(lenBytes, j) =>
      if j <= cut { DecodeBodyPrefix(input, cut, lenBytes, j); }
  }

  // Main result: a prefix gets the verdict of the whole input as soon as it covers what the verdict consumes.
  lemma VerdictOfPrefix(input: seq<byte>, cut: nat, cap: nat)
    requires cut <= |input|
    ensures var v := Decode(input, cap);
      var w := Decode(input[..cut], cap);
      && (w == v || w == Incomplete)
      && (v.Consumes() ==> v.consumed <= |input| && (w == v <==> v.consumed <= cut))
  {
    hide DecodeAfterStart;
    FindStartPrefix(input, cut, 0);
    var s := FindStart(input, 0);
    if s < cut { DecodeAfterStartPrefix(input, cut, s + 1, cap); }
  }

  // Appending bytes never changes a verdict.
  lemma VerdictIsFinal(input: seq<byte>, more: seq<byte>, cap: nat)
    requires Decode(input, cap) != Incomplete
    ensures Decode(input + more, cap) == Decode(input, cap)
  {
    assert (input + more)[..|input|] == input;
    VerdictOfPrefix(input + more, |input|, cap);
  }

  // Byte by byte, the first verdict comes with exactly the last byte it consumes.
  lemma FirstVerdict(input: seq<byte>, cap: nat, n: nat)
    requires n <= |input| && Decode(input, cap).Consumes()
    ensures Decode(input[..n], cap) == if n < Decode(input, cap).consumed then Incomplete else Decode(input, cap)
  {
    VerdictOfPrefix(input, n, cap);
  }

  // ---- Size ----

  function Escapes(data: seq<byte>): nat {
    if data == [] then 0
    else (if data[0] == START || data[0] == ESCAPE then 1 else 0) + Escapes(data[1..])
  }

  lemma {:induction false} StuffedSize(data: seq<byte>)
    ensures |Stuff(data)| == |data| + Escapes(data)
  {
    if data != [] { StuffedSize(data[1..]); }
  }

  lemma EncodedSize(payload: Payload)
    ensures |Encode(payload)| == |payload| + 5 + Escapes(PutU16(|payload|) + payload + CheckBytes(payload))
    ensures |payload| + 5 <= |Encode(payload)| <= 2 * |payload| + 9
  {
    StuffedSize(PutU16(|payload|) + payload + CheckBytes(payload));
  }

  // ---- The code ----

  lemma XorEscapeIsXor(b: byte)
    ensures ToBits(XorEscape(b) as int, 8) == Xor(ToBits(b as int, 8), ToBits(0x20, 8))
    ensures XorEscape(XorEscape(b)) == b
  {
    hide ToBits;
    FlippedOctet(b as int, XorEscape(b) as int);
    FlippedBits(b as int, XorEscape(b) as int);
  }

  lemma FlippedBits(n: nat, m: nat)
    requires m / 0x40 == n / 0x40 && m % 0x20 == n % 0x20 && m / 0x20 % 2 == 1 - n / 0x20 % 2
    ensures ToBits(m, 8) == Xor(ToBits(n, 8), ToBits(0x20, 8))
  {
    hide ToBits;
    OctetBits(n);
    OctetBits(m);
    OctetBits(0x20);
    BitsOfZero(2);
    BitsOfZero(5);
  }

  function Octet(n: nat): seq<bool> {
    ToBits(n / 0x40, 2) + [n / 0x20 % 2 == 1] + ToBits(n % 0x20, 5)
  }

  lemma OctetBits(n: nat)
    ensures ToBits(n, 8) == Octet(n)
  {
    assert Power(5) == 0x20;
    BitsSplit(n, 3, 5, n / 0x20, n % 0x20);
  }

  lemma FlippedOctet(n: nat, m: nat)
    requires m == if n / 0x20 % 2 == 1 then n - 0x20 else n + 0x20
    ensures m / 0x40 == n / 0x40 && m % 0x20 == n % 0x20 && m / 0x20 % 2 == 1 - n / 0x20 % 2
  {
    var q, t := n / 0x20, n % 0x20;
    var p := if q % 2 == 1 then q - 1 else q + 1;
    DivisionIsUnique(m, 0x20, p, t);
    assert q / 2 == p / 2 && p % 2 == 1 - q % 2;
    DivisionIsUnique(n, 0x40, q / 2, 0x20 * (q % 2) + t);
    DivisionIsUnique(m, 0x40, q / 2, 0x20 * (p % 2) + t);
  }

  datatype Result = OK | BufferTooSmall | NotEnoughInput | Corrupt

  // stuff_write_byte. The guard computes in uint16_t.
  method StuffWriteByte(out: array<byte>, cap: nat, idx: nat, b: byte) returns (ok: bool, next: nat)
    requires idx <= cap <= out.Length && cap < 0x1_0000 && idx + |StuffByte(b)| < 0x1_0000
    modifies out
    ensures ok <==> idx + |StuffByte(b)| <= cap
    ensures ok ==> next == idx + |StuffByte(b)| && out[..next] == old(out[..idx]) + StuffByte(b)
    ensures forall i :: cap <= i < out.Length ==> out[i] == old(out[i])
  {
    next := idx;
    if b == START || b == ESCAPE {
      if (idx + 2) % 0x1_0000 > cap { return false, next; }
      out[next] := ESCAPE;
      out[next + 1] := XorEscape(b);
      next := next + 2;
    } else {
      if (idx + 1) % 0x1_0000 > cap { return false, next; }
      out[next] := b;
      next := next + 1;
    }
    ok := true;
  }

  // The wrap-around of that guard is harmless exactly for capacities up to 65533.
  lemma GuardIsExactIff(cap: U16)
    ensures (forall idx: nat, b: byte :: idx <= cap ==> GuardIsExact(idx, b, cap)) <==> cap <= 65533
  {
    if cap > 65533 {
      assert !GuardIsExact(cap, START, cap);
    }
  }

  predicate GuardIsExact(idx: nat, b: byte, cap: U16) {
    (idx + |StuffByte(b)|) % 0x1_0000 <= cap <==> idx + |StuffByte(b)| <= cap
  }

  // No byte of the data meets a guard that wraps around.
  predicate GuardsHold(data: seq<byte>, idx: nat, cap: nat) {
    data == [] || (GuardHoldsFor(data[0], idx, cap) && GuardsHold(data[1..], idx + |StuffByte(data[0])|, cap))
  }

  predicate GuardHoldsFor(b: byte, idx: nat, cap: nat) {
    idx <= cap ==> idx + |StuffByte(b)| < 0x1_0000
  }

  lemma {:induction false} GuardsHoldWhen(data: seq<byte>, idx: nat, cap: nat)
    requires cap <= 65533 || (cap < 0x1_0000 && idx + |Stuff(data)| <= cap)
    ensures GuardsHold(data, idx, cap)
  {
    if data != [] { GuardsHoldWhen(data[1..], idx + |StuffByte(data[0])|, cap); }
  }

  lemma {:induction false} GuardsOfParts(x: seq<byte>, y: seq<byte>, idx: nat, cap: nat)
    requires GuardsHold(x + y, idx, cap)
    ensures GuardsHold(x, idx, cap) && GuardsHold(y, idx + |Stuff(x)|, cap)
  {
    hide StuffByte, GuardHoldsFor;
    if x == [] {
      assert x + y == y;
    } else {
      assert (x + y)[1..] == x[1..] + y;
      GuardsOfParts(x[1..], y, idx + |StuffByte(x[0])|, cap);
    }
  }

  lemma GuardHoldsAt(data: seq<byte>, i: nat, idx: nat, cap: nat)
    requires i < |data| && GuardsHold(data, idx, cap)
    ensures idx + |Stuff(data[..i])| <= cap ==> idx + |Stuff(data[..i])| + |StuffByte(data[i])| < 0x1_0000
  {
    hide Stuff, StuffByte;
    assert data == data[..i] + data[i..];
    GuardsOfParts(data[..i], data[i..], idx, cap);
  }

  method StuffWrite(data: seq<byte>, out: array<byte>, cap: nat, idx: nat) returns (ok: bool, next: nat)
    requires idx <= cap <= out.Length && cap < 0x1_0000 && GuardsHold(data, idx, cap)
    modifies out
    ensures ok <==> idx + |Stuff(data)| <= cap
    ensures ok ==> next == idx + |Stuff(data)| && out[..next] == old(out[..idx]) + Stuff(data)
    ensures forall i :: cap <= i < out.Length ==> out[i] == old(out[i])
  {
    next := idx;
    ghost var before := out[..idx];
    assert data[..0] == [] && Stuff([]) == [];
    hide Stuff, StuffByte, GuardsHold;
    for i := 0 to |data|
      invariant idx + |Stuff(data[..i])| == next <= cap
      invariant out[..next] == before + Stuff(data[..i])
      invariant forall j :: cap <= j < out.Length ==> out[j] == old(out[j])
    {
      StuffSnoc(data, i);
      GuardHoldsAt(data, i, idx, cap);
      ghost var done, last := Stuff(data[..i]), StuffByte(data[i]);
      ok, next := StuffWriteByte(out, cap, next, data[i]);
      if !ok { return; }
      assert before + done + last == before + (done + last);
    }
    assert data[..|data|] == data;
    ok := true;
  }

  lemma StuffSnoc(data: seq<byte>, i: nat)
    requires i < |data|
    ensures Stuff(data[..i + 1]) == Stuff(data[..i]) + StuffByte(data[i])
    ensures |Stuff(data[..i + 1])| <= |Stuff(data)|
  {
    StuffConcat(data[..i], [data[i]]);
    assert data[..i + 1] == data[..i] + [data[i]];
    assert Stuff([data[i]]) == StuffByte(data[i]) by { assert [data[i]][1..] == []; }
    StuffConcat(data[..i + 1], data[i + 1..]);
    assert data == data[..i + 1] + data[i + 1..];
  }

  predicate EncodesSafely(payload: Payload, cap: U16) {
    GuardsHold(PutU16(|payload|) + payload + CheckBytes(payload), 1, cap)
  }

  // The guards hold for every payload if and only if the capacity is at most 65533. For the other two the
  // frame of 65531 zeros and a START runs past the end.
  lemma EncodesSafelyIff(cap: U16)
    ensures (forall p: Payload :: EncodesSafely(p, cap)) <==> cap <= 65533
  {
    if cap <= 65533 {
      forall p: Payload ensures EncodesSafely(p, cap) {
        GuardsHoldWhen(PutU16(|p|) + p + CheckBytes(p), 1, cap);
      }
    } else {
      assert !EncodesSafely(LastByteEscaped(), cap) by { LastGuardWraps(cap); }
    }
  }

  function LastByteEscaped(): Payload { seq(65531, _ => 0 as byte) + [START] }

  lemma LastGuardWraps(cap: U16)
    requires cap > 65533
    ensures !EncodesSafely(LastByteEscaped(), cap)
  {
    hide Stuff, CheckBytes, GuardsHold;
    var p := LastByteEscaped();
    var data := PutU16(|p|) + p + CheckBytes(p);
    assert PutU16(65532) == [0xFF, 0xFC];
    forall i | 0 <= i < 65533 ensures data[..65533][i] != START && data[..65533][i] != ESCAPE {}
    PlainIsUnchanged(data[..65533]);
    assert data[65533] == START && |StuffByte(START)| == 2;
    if EncodesSafely(p, cap) { GuardHoldsAt(data, 65533, 1, cap); }
  }

  lemma {:induction false} PlainIsUnchanged(data: seq<byte>)
    requires START !in data && ESCAPE !in data
    ensures |Stuff(data)| == |data|
  {
    if data != [] { PlainIsUnchanged(data[1..]); }
  }

  // Frame_Encode.
  method FrameEncode(payload: Payload, out: array<byte>, cap: U16) returns (r: Result, written: nat)
    requires cap <= out.Length && EncodesSafely(payload, cap)
    modifies out
    ensures r == (if |Encode(payload)| <= cap then OK else BufferTooSmall)
    ensures r == OK ==> written == |Encode(payload)| && out[..written] == Encode(payload)
    ensures forall i :: cap <= i < out.Length ==> out[i] == old(out[i])
  {
    hide Encode, Stuff, Update, GuardsHold, EncodesSafely;
    EncodedParts(payload);
    GuardsOfFrame(payload, cap);
    written := 0;
    var lenBytes := PutU16(|payload|);
    var crc := Crc16Update(PRESET, lenBytes);
    crc := Crc16Update(crc, payload);
    var crcBytes := PutU16(ToWord(crc));

    if cap < 1 { return BufferTooSmall, 0; }
    out[0] := START;
    var ok;
    ok, written := StuffWrite(lenBytes, out, cap, 1);
    if !ok { return BufferTooSmall, written; }
    ok, written := StuffWrite(payload, out, cap, written);
    if !ok { return BufferTooSmall, written; }
    ok, written := StuffWrite(crcBytes, out, cap, written);
    if !ok { return BufferTooSmall, written; }
    r := OK;
  }

  lemma GuardsOfFrame(payload: Payload, cap: U16)
    requires EncodesSafely(payload, cap)
    ensures GuardsHold(PutU16(|payload|), 1, cap)
    ensures GuardsHold(payload, 1 + |Stuff(PutU16(|payload|))|, cap)
    ensures GuardsHold(CheckBytes(payload), 1 + |Stuff(PutU16(|payload|))| + |Stuff(payload)|, cap)
  {
    hide Stuff, PutU16, CheckBytes, GuardsHold;
    GuardsOfParts(PutU16(|payload|) + payload, CheckBytes(payload), 1, cap);
    GuardsOfParts(PutU16(|payload|), payload, 1, cap);
    StuffConcat(PutU16(|payload|), payload);
  }

  lemma EncodedParts(payload: Payload)
    ensures Encode(payload) == [START] + Stuff(PutU16(|payload|)) + Stuff(payload) + Stuff(CheckBytes(payload))
  {
    hide Stuff, CheckBytes, PutU16;
    var lenBytes, check := PutU16(|payload|), CheckBytes(payload);
    StuffConcat(lenBytes + payload, check);
    StuffConcat(lenBytes, payload);
    JoinFour([START], Stuff(lenBytes), Stuff(payload), Stuff(check));
  }

  lemma JoinFour(a: seq<byte>, b: seq<byte>, c: seq<byte>, d: seq<byte>)
    ensures a + (b + c + d) == a + b + c + d
  {
  }

  // destuff_read_byte.
  method DestuffReadByte(input: seq<byte>, idx: nat) returns (ok: bool, b: byte, next: nat)
    requires |input| < 0x1_0000
    ensures ok <==> DestuffByte(input, idx).Got?
    ensures ok ==> DestuffByte(input, idx) == Got([b], next)
  {
    next, b := idx, 0;
    if idx >= |input| { return false, b, next; }
    b := input[idx];
    if b == ESCAPE {
      if (idx + 1) % 0x1_0000 >= |input| { return false, b, next; }
      b := XorEscape(input[idx + 1]);
      next := (idx + 2) % 0x1_0000;
    } else {
      next := (idx + 1) % 0x1_0000;
    }
    ok := true;
  }

  // The three reading loops of Frame_Decode.
  method DestuffInto(input: seq<byte>, idx: nat, out: array<byte>, n: nat) returns (ok: bool, next: nat)
    requires |input| < 0x1_0000 && n <= out.Length
    modifies out
    ensures ok <==> Destuff(input, idx, n).Got?
    ensures ok ==> Destuff(input, idx, n) == Got(out[..n], next)
    ensures forall i :: n <= i < out.Length ==> out[i] == old(out[i])
  {
    next := idx;
    for i := 0 to n
      invariant Destuff(input, idx, i) == Got(out[..i], next)
      invariant forall j :: n <= j < out.Length ==> out[j] == old(out[j])
    {
      var b;
      ok, b, next := DestuffReadByte(input, next);
      if !ok {
        DestuffStaysShort(input, idx, i + 1, n);
        return;
      }
      out[i] := b;
    }
    ok := true;
  }

  lemma DestuffStaysShort(input: seq<byte>, i: nat, m: nat, n: nat)
    requires m <= n && Destuff(input, i, m).Short?
    ensures Destuff(input, i, n).Short?
  {
    DestuffConcat(input, i, m, n - m);
  }

  // The loop at the top of Frame_Decode.
  method SkipNoise(input: seq<byte>) returns (startIdx: nat)
    ensures startIdx == FindStart(input, 0)
  {
    startIdx := 0;
    while startIdx < |input| && input[startIdx] != START
      invariant startIdx <= |input|
      invariant FindStart(input, startIdx) == FindStart(input, 0)
    {
      startIdx := startIdx + 1;
    }
  }

  // Frame_Decode. A verdict without a consumed length leaves that out-parameter alone.
  method FrameDecode(input: seq<byte>, outPayload: array<byte>, cap: U16)
      returns (r: Result, payloadLen: nat, consumed: nat)
    requires |input| < 0x1_0000 && cap <= outPayload.Length
    modifies outPayload
    ensures payloadLen <= outPayload.Length
    ensures Decode(input, cap) ==
      match r
      case OK => Complete(outPayload[..payloadLen], consumed)
      case Corrupt => Malformed(consumed)
      case BufferTooSmall => TooSmall
      case NotEnoughInput => Incomplete
    ensures forall i :: cap <= i < outPayload.Length ==> outPayload[i] == old(outPayload[i])
  {
    hide Destuff, Update, FindStart, ToWord;
    payloadLen, consumed := 0, 0;
    var startIdx := SkipNoise(input);
    if startIdx >= |input| { return NotEnoughInput, 0, 0; }

    var lenBytes, crcBytes := new byte[2], new byte[2];
    var ok, idx := DestuffInto(input, startIdx + 1, lenBytes, 2);
    if !ok { return NotEnoughInput, 0, 0; }
    assert lenBytes[..] == lenBytes[..2];
    var n := GetU16(lenBytes[..]);
    if n > cap { return BufferTooSmall, 0, 0; }

    ok, idx := DestuffInto(input, idx, outPayload, n);
    if !ok { return NotEnoughInput, 0, 0; }
    ok, idx := DestuffInto(input, idx, crcBytes, 2);
    if !ok { return NotEnoughInput, 0, 0; }
    assert crcBytes[..] == crcBytes[..2];
    var receivedCrc := GetU16(crcBytes[..]);

    var computedCrc := Crc16Update(PRESET, lenBytes[..]);
    computedCrc := Crc16Update(computedCrc, outPayload[..n]);
    consumed := idx;
    if ToWord(computedCrc) != receivedCrc { return Corrupt, 0, consumed; }
    return OK, n, consumed;
  }
}
