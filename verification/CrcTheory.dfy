/** Polynomials over the two-element field, each the finite set of exponents with coefficient one. */
module Polynomials {
  type Polynomial = set<int>

  function Add(p: Polynomial, q: Polynomial): Polynomial { (p - q) + (q - p) }

  // p * x^k
  function Shift(p: Polynomial, k: int): (r: Polynomial)
    ensures forall e {:trigger e in r} :: e in r <==> e - k in p
  {
    var r := set d | d in p :: d + k;
    assert forall e {:trigger e in r} :: e - k in p ==> e in r by {
      forall e | e - k in p ensures e in r {
        var d := e - k;
        assert d in p && d + k == e;
      }
    }
    r
  }

  // q * (x^16 + x^12 + x^5 + 1)
  function TimesGenerator(q: Polynomial): Polynomial {
    Add(Add(Shift(q, 16), Shift(q, 12)), Add(Shift(q, 5), q))
  }

  predicate DegreeBelow16(r: Polynomial) {
    forall e <- r :: 0 <= e < 16
  }

  // r is what is left of a after division by the generator.
  ghost predicate IsRemainder(a: Polynomial, r: Polynomial) {
    DegreeBelow16(r) && exists q: Polynomial :: a == Add(TimesGenerator(q), r)
  }

  lemma AddCancels(p: Polynomial, q: Polynomial, r: Polynomial)
    ensures Add(p, Add(p, q)) == q
    ensures Add(Add(p, q), r) == Add(p, Add(q, r))
    ensures Add(p, q) == Add(q, p)
  {
  }

  lemma AddAt(p: Polynomial, q: Polynomial, e: int)
    ensures e in Add(p, q) <==> (e in p) != (e in q)
  {
  }

  lemma TimesGeneratorAt(q: Polynomial, e: int)
    ensures e in TimesGenerator(q) <==> (((e - 16 in q) != (e - 12 in q)) != ((e - 5 in q) != (e in q)))
  {
  }

  lemma TimesGeneratorIsLinear(p: Polynomial, q: Polynomial)
    ensures TimesGenerator(Add(p, q)) == Add(TimesGenerator(p), TimesGenerator(q))
  {
    var l, r := TimesGenerator(Add(p, q)), Add(TimesGenerator(p), TimesGenerator(q));
    forall e: int ensures e in l <==> e in r {
      TimesGeneratorAt(Add(p, q), e);
      TimesGeneratorAt(p, e);
      TimesGeneratorAt(q, e);
    }
  }

  lemma Pick<X>(s: set<X>) returns (x: X)
    requires s != {}
    ensures x in s
  {
    x :| x in s;
  }

  lemma {:induction false} Extremes(p: Polynomial) returns (low: int, high: int)
    requires p != {}
    ensures low in p && high in p && forall e <- p :: low <= e <= high
    decreases |p|
  {
    var m := Pick(p);
    low, high := m, m;
    var rest := p - {m};
    assert forall e <- p :: e == m || e in rest;
    if rest != {} {
      var l, h := Extremes(rest);
      low, high := if l < m then l else m, if h > m then h else m;
    }
  }

  // A nonzero multiple of the generator reaches beyond the sixteen lowest powers.
  lemma MultiplesAreLong(q: Polynomial)
    requires q != {}
    ensures !DegreeBelow16(TimesGenerator(q))
  {
    var low, high := Extremes(q);
    TimesGeneratorAt(q, low);
    TimesGeneratorAt(q, high + 16);
    assert low in TimesGenerator(q) && high + 16 in TimesGenerator(q);
  }

  lemma RemainderIsUnique(a: Polynomial, r: Polynomial, s: Polynomial)
    requires IsRemainder(a, r) && IsRemainder(a, s)
    ensures r == s
  {
    var q :| a == Add(TimesGenerator(q), r);
    var t :| a == Add(TimesGenerator(t), s);
    TimesGeneratorIsLinear(q, t);
    SumsAgree(TimesGenerator(q), r, TimesGenerator(t), s);
    if Add(q, t) != {} {
      MultiplesAreLong(Add(q, t));
    } else {
      assert TimesGenerator({}) == {};
      assert forall e :: e in r <==> e in s;
    }
  }

  lemma SumsAgree(g: Polynomial, r: Polynomial, h: Polynomial, s: Polynomial)
    requires Add(g, r) == Add(h, s)
    ensures Add(g, h) == Add(r, s)
    ensures Add(g, h) == {} ==> r == s
  {
    forall e: int ensures (e in g) != (e in h) <==> (e in r) != (e in s) {
      assert e in Add(g, r) <==> e in Add(h, s);
    }
    if Add(g, h) == {} {
      forall e: int ensures e in r <==> e in s {
        assert e in Add(r, s) <==> (e in r) != (e in s);
      }
    }
  }
}

/** What the check of Crc computes and which transmission errors it catches. */
module CrcTheory {
  import opened Bytes
  import opened Bits
  import opened Crc
  import opened Polynomials

  // The first bit is the coefficient of the highest power.
  function PolynomialOf(bits: seq<bool>): (p: Polynomial)
    ensures forall e :: e in p <==> 0 <= e < |bits| && Coefficient(bits, e)
  {
    set e: int | 0 <= e < |bits| && Coefficient(bits, e)
  }

  predicate Coefficient(bits: seq<bool>, e: nat)
    requires e < |bits|
  {
    bits[|bits| - 1 - e]
  }

  // The register in front of the message, the message followed by sixteen zero bits.
  function Dividend(c: Register, bits: seq<bool>): Polynomial {
    Add(Shift(PolynomialOf(c), |bits|), Shift(PolynomialOf(bits), 16))
  }

  lemma FeedSubtracts(c: Register, bits: seq<bool>)
    requires bits != []
    ensures var n := |bits| - 1;
      Dividend(c, bits) ==
        Add(TimesGenerator(if c[0] != bits[0] then {n} else {}), Dividend(Feed(c, bits[0]), bits[1..]))
  {
    var n := |bits| - 1;
    var d := Feed(c, bits[0]);
    var l, r := Dividend(c, bits), Add(TimesGenerator(if c[0] != bits[0] then {n} else {}), Dividend(d, bits[1..]));
    forall e: int ensures e in l <==> e in r {
      FeedSubtractsAt(c, bits, e);
    }
  }

  lemma ShiftedBit(bits: seq<bool>, n: nat, e: int)
    ensures e in Shift(PolynomialOf(bits), n) <==> n <= e < n + |bits| && bits[|bits| - 1 - (e - n)]
  {
  }

  lemma FeedSubtractsAt(c: Register, bits: seq<bool>, e: int)
    requires bits != []
    ensures var n := |bits| - 1;
      e in Dividend(c, bits) <==>
      e in Add(TimesGenerator(if c[0] != bits[0] then {n} else {}), Dividend(Feed(c, bits[0]), bits[1..]))
  {
    var n, carry := |bits| - 1, c[0] != bits[0];
    var d, term: Polynomial := Feed(c, bits[0]), if carry then {n} else {};
    hide PolynomialOf, Shift, Feed, Add, TimesGenerator;
    TermAt(n, carry, e);
    RegisterAt(c, bits[0], n, e);
    MessageAt(bits, e);
    AddAt(Shift(PolynomialOf(c), n + 1), Shift(PolynomialOf(bits), 16), e);
    AddAt(Shift(PolynomialOf(d), n), Shift(PolynomialOf(bits[1..]), 16), e);
    AddAt(TimesGenerator(term), Dividend(d, bits[1..]), e);
  }

  lemma TermAt(n: nat, carry: bool, e: int)
    ensures var k := e - n;
      e in TimesGenerator(if carry then {n} else {}) <==> carry && (k == 0 || k == 5 || k == 12 || k == 16)
  {
    TimesGeneratorAt(if carry then {n} else {}, e);
  }

  // Feeding a bit moves the register up by one power; what it loses at the top is the carry.
  lemma RegisterAt(c: Register, bit: bool, n: nat, e: int)
    ensures var k, carry := e - n, c[0] != bit;
      && (e in Shift(PolynomialOf(Feed(c, bit)), n) <==>
            ((k < 16 && e in Shift(PolynomialOf(c), n + 1)) != (carry && (k == 0 || k == 5 || k == 12))))
      && (k == 16 ==> (e in Shift(PolynomialOf(c), n + 1) <==> c[0]))
      && (k > 16 ==> e !in Shift(PolynomialOf(c), n + 1))
  {
    var k := e - n;
    hide PolynomialOf, Shift, Feed;
    ShiftedBit(c, n + 1, e);
    ShiftedBit(Feed(c, bit), n, e);
    if 0 <= k < 16 { FeedAt(c, bit, 15 - k); }
  }

  // The first bit of a message is its highest power.
  lemma MessageAt(bits: seq<bool>, e: int)
    requires bits != []
    ensures e in Shift(PolynomialOf(bits), 16) <==>
      if e == 15 + |bits| then bits[0] else e in Shift(PolynomialOf(bits[1..]), 16)
    ensures e >= 15 + |bits| ==> e !in Shift(PolynomialOf(bits[1..]), 16)
  {
    hide PolynomialOf, Shift;
    ShiftedBit(bits, 16, e);
    ShiftedBit(bits[1..], 16, e);
  }

  lemma {:induction false} FeedBitsDivides(c: Register, bits: seq<bool>) returns (q: Polynomial)
    ensures Dividend(c, bits) == Add(TimesGenerator(q), PolynomialOf(FeedBits(c, bits)))
    decreases |bits|
  {
    if bits == [] {
      q := {};
      assert Dividend(c, bits) == PolynomialOf(c);
      assert TimesGenerator({}) == {};
    } else {
      FeedSubtracts(c, bits);
      var term: Polynomial := if c[0] != bits[0] then {|bits| - 1} else {};
      var rest := FeedBitsDivides(Feed(c, bits[0]), bits[1..]);
      q := Add(term, rest);
      TimesGeneratorIsLinear(term, rest);
      AddCancels(TimesGenerator(term), TimesGenerator(rest), PolynomialOf(FeedBits(c, bits)));
    }
  }

  // Main result: the check is the remainder of the message polynomial, and nothing else is.
  lemma CrcIsPolynomialRemainder(c: Register, data: seq<byte>, r: Register)
    ensures IsRemainder(Dividend(c, MessageBits(data)), PolynomialOf(r)) <==> r == Update(c, data)
  {
    var a, u := Dividend(c, MessageBits(data)), Update(c, data);
    UpdateIsBitSerial(c, data);
    var q := FeedBitsDivides(c, MessageBits(data));
    assert IsRemainder(a, PolynomialOf(u));
    if IsRemainder(a, PolynomialOf(r)) {
      RemainderIsUnique(a, PolynomialOf(r), PolynomialOf(u));
      forall i | 0 <= i < 16 ensures r[i] == u[i] {
        assert 15 - i in PolynomialOf(r) <==> 15 - i in PolynomialOf(u);
      }
    }
  }

  // ---- Error detection ----

  // The comparison at the end of Frame_Decode.
  predicate CheckMatches(lenBytes: seq<byte>, payload: seq<byte>, check: seq<byte>)
    requires |check| == 2
  {
    GetU16(check) == ToWord(Update(Update(PRESET, lenBytes), payload))
  }

  lemma {:induction false} StepsKeepNonzero(c: Register, n: nat)
    ensures Steps(c, n) == Zeros(16) <==> c == Zeros(16)
    decreases n
  {
    if n > 0 {
      StepsKeepNonzero(Step(c), n - 1);
      if Step(c) == Zeros(16) {
        assert !c[0] by { assert !Step(c)[15]; }
        forall i | 0 < i < 16 ensures !c[i] { assert !Step(c)[i - 1]; }
        assert c == Zeros(16);
      }
      assert c == Zeros(16) ==> Step(c) == Zeros(16);
    }
  }

  lemma WordOfTwoBytes(c: Register, check: seq<byte>)
    requires |check| == 2
    ensures GetU16(check) == ToWord(c) <==> c == MessageBits(check)
  {
    hide ToBits, ToNumber, Power;
    var h, l := ByteBits(check[0]), ByteBits(check[1]);
    assert MessageBits(check) == h + l by { assert MessageBits(check[1..][1..]) == []; }
    PowerValues();
    NumberOfBits(check[0] as int, 8);
    NumberOfBits(check[1] as int, 8);
    NumberConcat(h, l);
    BitsOfNumber(c);
    BitsOfNumber(h + l);
  }

  lemma XorWithSelf(c: Register, d: Register)
    ensures Xor(c, d) == Zeros(16) <==> c == d
  {
    if Xor(c, d) == Zeros(16) {
      forall i | 0 <= i < 16 ensures c[i] == d[i] { assert !Xor(c, d)[i]; }
    }
  }

  // Two more bytes bring the register to zero exactly when they spell out its content.
  lemma CheckCancels(c: Register, check: seq<byte>)
    requires |check| == 2
    ensures Update(c, check) == Zeros(16) <==> GetU16(check) == ToWord(c)
  {
    UpdateIsBitSerial(c, check);
    var bits := MessageBits(check);
    XorTopIsFeed(c, bits);
    assert XorTop(c, bits) == Xor(c, bits);
    StepsKeepNonzero(Xor(c, bits), 16);
    XorWithSelf(c, bits);
    WordOfTwoBytes(c, check);
  }

  // A received check is right exactly when the check of everything received is zero.
  lemma ResidueIsZero(lenBytes: seq<byte>, payload: seq<byte>, check: seq<byte>)
    requires |check| == 2
    ensures CheckMatches(lenBytes, payload, check) <==> Update(PRESET, lenBytes + payload + check) == Zeros(16)
  {
    UpdateConcat(PRESET, lenBytes, payload);
    UpdateConcat(PRESET, lenBytes + payload, check);
    CheckCancels(Update(PRESET, lenBytes + payload), check);
  }

  lemma FeedIsLinear(c: Register, d: Register, x: bool, y: bool)
    ensures Feed(Xor(c, d), x != y) == Xor(Feed(c, x), Feed(d, y))
  {
    forall i | 0 <= i < 16 ensures Feed(Xor(c, d), x != y)[i] == Xor(Feed(c, x), Feed(d, y))[i] {
      FeedAt(Xor(c, d), x != y, i);
      FeedAt(c, x, i);
      FeedAt(d, y, i);
    }
  }

  lemma {:induction false} FeedBitsIsLinear(c: Register, d: Register, x: seq<bool>, y: seq<bool>)
    requires |x| == |y|
    ensures FeedBits(Xor(c, d), Xor(x, y)) == Xor(FeedBits(c, x), FeedBits(d, y))
    decreases |x|
  {
    if x != [] {
      FeedIsLinear(c, d, x[0], y[0]);
      assert Xor(x, y)[1..] == Xor(x[1..], y[1..]);
      FeedBitsIsLinear(Feed(c, x[0]), Feed(d, y[0]), x[1..], y[1..]);
    }
  }

  // All wrong bits lie among sixteen consecutive ones starting at s, and there is one.
  ghost predicate IsBurst(e: seq<bool>, s: nat) {
    && (exists i :: 0 <= i < |e| && e[i])
    && (forall i :: 0 <= i < |e| && e[i] ==> s <= i < s + 16)
  }

  lemma {:induction false} FeedZeros(c: Register, n: nat)
    ensures FeedBits(c, Zeros(n)) == Steps(c, n)
    decreases n
  {
    if n > 0 {
      assert c[0 := c[0] != false] == c;
      assert Zeros(n)[1..] == Zeros(n - 1);
      FeedZeros(Step(c), n - 1);
    }
  }

  lemma BurstLeavesResidue(e: seq<bool>, s: nat)
    requires IsBurst(e, s)
    ensures FeedBits(Zeros(16), e) != Zeros(16)
  {
    var zero := Zeros(16);
    var t := if s + 16 < |e| then s + 16 else |e|;
    var before, window, after := e[..s], e[s..t], e[t..];
    assert e == before + (window + after);
    assert before == Zeros(s) && after == Zeros(|after|);
    FeedConcat(zero, before, window + after);
    FeedZeros(zero, s);
    StepsKeepNonzero(zero, s);
    FeedConcat(zero, window, after);
    var i :| 0 <= i < |e| && e[i];
    assert window[i - s];
    WindowLeavesResidue(window, i - s);
    FeedZeros(FeedBits(zero, window), |after|);
    StepsKeepNonzero(FeedBits(zero, window), |after|);
  }

  lemma WindowLeavesResidue(window: seq<bool>, i: nat)
    requires i < |window| <= 16 && window[i]
    ensures FeedBits(Zeros(16), window) != Zeros(16)
  {
    XorTopIsFeed(Zeros(16), window);
    assert XorTop(Zeros(16), window)[i];
    StepsKeepNonzero(XorTop(Zeros(16), window), |window|);
  }

  function Difference(x: seq<byte>, y: seq<byte>): seq<bool>
    requires |x| == |y|
  {
    Xor(MessageBits(x), MessageBits(y))
  }

  lemma ResidueOfError(c: Register, x: seq<byte>, y: seq<byte>)
    requires |x| == |y|
    ensures Xor(Update(c, x), Update(c, y)) == FeedBits(Zeros(16), Difference(x, y))
  {
    UpdateIsBitSerial(c, x);
    UpdateIsBitSerial(c, y);
    FeedBitsIsLinear(c, c, MessageBits(x), MessageBits(y));
    XorWithSelf(c, c);
  }

  // What the error pattern alone leaves in the register decides whether it goes unnoticed.
  lemma ErrorIsCaughtIff(lenBytes: seq<byte>, payload: seq<byte>, check: seq<byte>, payload': seq<byte>,
      check': seq<byte>)
    requires |check| == |check'| == 2 && |payload| == |payload'|
    requires CheckMatches(lenBytes, payload, check)
    ensures CheckMatches(lenBytes, payload', check') <==>
      FeedBits(Zeros(16), Difference(payload + check, payload' + check')) == Zeros(16)
  {
    ResidueIsZero(lenBytes, payload, check);
    ResidueIsZero(lenBytes, payload', check');
    var x, y := payload + check, payload' + check';
    assert lenBytes + payload + check == lenBytes + x && lenBytes + payload' + check' == lenBytes + y;
    UpdateConcat(PRESET, lenBytes, x);
    UpdateConcat(PRESET, lenBytes, y);
    var c := Update(PRESET, lenBytes);
    ResidueOfError(c, x, y);
    XorWithSelf(Update(c, x), Update(c, y));
  }

  // Main result: every burst of at most sixteen bits in payload and check is rejected.
  lemma BurstIsRejected(lenBytes: seq<byte>, payload: seq<byte>, check: seq<byte>, payload': seq<byte>,
      check': seq<byte>, s: nat)
    requires |check| == |check'| == 2 && |payload| == |payload'|
    requires CheckMatches(lenBytes, payload, check)
    requires IsBurst(Difference(payload + check, payload' + check'), s)
    ensures !CheckMatches(lenBytes, payload', check')
  {
    ErrorIsCaughtIff(lenBytes, payload, check, payload', check');
    BurstLeavesResidue(Difference(payload + check, payload' + check'), s);
  }

  lemma {:induction false} MessageBitAt(data: seq<byte>, i: nat, j: nat)
    requires i < |data| && j < 8
    ensures MessageBits(data)[8 * i + j] == ByteBits(data[i])[j]
    decreases i
  {
    if i > 0 { MessageBitAt(data[1..], i - 1, j); }
  }

  lemma DifferenceAt(x: seq<byte>, y: seq<byte>, i: nat, j: nat)
    requires |x| == |y| && i < |x| && j < 8
    ensures Difference(x, y)[8 * i + j] == (ByteBits(x[i])[j] != ByteBits(y[i])[j])
  {
    MessageBitAt(x, i, j);
    MessageBitAt(y, i, j);
  }

  lemma DifferentBytesDifferInABit(x: byte, y: byte) returns (j: nat)
    requires x != y
    ensures j < 8 && ByteBits(x)[j] != ByteBits(y)[j]
  {
    PowerValues();
    NumberOfBits(x as int, 8);
    NumberOfBits(y as int, 8);
    var a, b := ByteBits(x), ByteBits(y);
    assert a != b;
    j :| 0 <= j < 8 && a[j] != b[j];
  }

  lemma AdjacentBytesAreABurst(x: seq<byte>, y: seq<byte>, k: nat)
    requires |x| == |y| && x != y
    requires forall i :: 0 <= i < |x| && i != k && i != k + 1 ==> x[i] == y[i]
    ensures IsBurst(Difference(x, y), 8 * k)
  {
    var e := Difference(x, y);
    forall i | 0 <= i < |e| && e[i] ensures 8 * k <= i < 8 * k + 16 {
      DifferenceAt(x, y, i / 8, i % 8);
    }
    var i :| 0 <= i < |x| && x[i] != y[i];
    var j := DifferentBytesDifferInABit(x[i], y[i]);
    DifferenceAt(x, y, i, j);
    assert e[8 * i + j];
  }

  // In particular any change to one byte or to two adjacent bytes.
  lemma AdjacentBytesAreProtected(lenBytes: seq<byte>, payload: seq<byte>, check: seq<byte>, payload': seq<byte>,
      check': seq<byte>, k: nat)
    requires |check| == |check'| == 2 && |payload| == |payload'|
    requires CheckMatches(lenBytes, payload, check)
    requires payload + check != payload' + check'
    requires forall i :: 0 <= i < |payload| + 2 && i != k && i != k + 1 ==>
      (payload + check)[i] == (payload' + check')[i]
    ensures !CheckMatches(lenBytes, payload', check')
  {
    AdjacentBytesAreABurst(payload + check, payload' + check', k);
    BurstIsRejected(lenBytes, payload, check, payload', check', 8 * k);
  }

  // ---- Parity ----

  function Parity(bits: seq<bool>): bool {
    if bits == [] then false else bits[0] != Parity(bits[1..])
  }

  lemma {:induction false} ParityConcat(x: seq<bool>, y: seq<bool>)
    ensures Parity(x + y) == (Parity(x) != Parity(y))
  {
    if x == [] {
      assert x + y == y;
    } else {
      assert (x + y)[1..] == x[1..] + y;
      ParityConcat(x[1..], y);
    }
  }

  lemma {:induction false} ParityXor(x: seq<bool>, y: seq<bool>)
    requires |x| == |y|
    ensures Parity(Xor(x, y)) == (Parity(x) != Parity(y))
  {
    if x != [] {
      assert Xor(x, y)[1..] == Xor(x[1..], y[1..]);
      ParityXor(x[1..], y[1..]);
    }
  }

  lemma GeneratorIsOdd()
    ensures Parity(GENERATOR)
  {
    var tail := GENERATOR[11..];
    assert tail == [false, false, false, false] + [true];
    ParityConcat([false, false, false, false], [true]);
    assert GENERATOR[4..] == [false, false, false, false, false, false] + ([true] + tail);
    ParityConcat([true], tail);
    ParityConcat([false, false, false, false, false, false], [true] + tail);
    assert GENERATOR == [false, false, false] + ([true] + GENERATOR[4..]);
    ParityConcat([true], GENERATOR[4..]);
    ParityConcat([false, false, false], [true] + GENERATOR[4..]);
  }

  lemma FeedParity(c: Register, bit: bool)
    ensures Parity(Feed(c, bit)) == (Parity(c) != bit)
  {
    var d := c[0 := c[0] != bit];
    assert d[1..] == c[1..];
    ParityConcat(d[1..], [false]);
    if d[0] {
      ParityXor(ShiftLeft(d), GENERATOR);
      GeneratorIsOdd();
    }
  }

  // The parity of the check is the parity of the message (and of the preset, which is even).
  lemma {:induction false} CheckKeepsParity(c: Register, bits: seq<bool>)
    ensures Parity(FeedBits(c, bits)) == (Parity(c) != Parity(bits))
    decreases |bits|
  {
    if bits != [] {
      FeedParity(c, bits[0]);
      CheckKeepsParity(Feed(c, bits[0]), bits[1..]);
    }
  }

  lemma {:induction false} ParityOfZeros(n: nat)
    ensures !Parity(Zeros(n))
  {
    if n > 0 {
      assert Zeros(n)[1..] == Zeros(n - 1);
      ParityOfZeros(n - 1);
    }
  }

  // Main result: every error with an odd number of wrong bits is rejected.
  lemma OddErrorIsRejected(lenBytes: seq<byte>, payload: seq<byte>, check: seq<byte>, payload': seq<byte>,
      check': seq<byte>)
    requires |check| == |check'| == 2 && |payload| == |payload'|
    requires CheckMatches(lenBytes, payload, check)
    requires Parity(Difference(payload + check, payload' + check'))
    ensures !CheckMatches(lenBytes, payload', check')
  {
    ErrorIsCaughtIff(lenBytes, payload, check, payload', check');
    CheckKeepsParity(Zeros(16), Difference(payload + check, payload' + check'));
    ParityOfZeros(16);
  }

  // The bit of value two, the last but one, makes the difference between n and n + 2.
  lemma OneBitApart(n: nat)
    requires n % 4 < 2
    ensures !ToBits(n, 8)[6] && ToBits(n + 2, 8) == ToBits(n, 8)[6 := true]
    ensures Parity(ToBits(n + 2, 8)) != Parity(ToBits(n, 8))
  {
    var front := ToBits(n / 4, 6);
    assert n / 2 / 2 == n / 4 && (n + 2) / 2 / 2 == n / 4 && n / 2 % 2 == 0 && (n + 2) / 2 % 2 == 1;
    var low := n % 2 == 1;
    assert ToBits(n, 8) == front + [false, low] by { assert ToBits(n / 2, 7) == front + [false]; }
    assert ToBits(n + 2, 8) == front + [true, low] by { assert ToBits((n + 2) / 2, 7) == front + [true]; }
    ParityConcat(front, [false, low]);
    ParityConcat(front, [true, low]);
    assert [false, low][1..] == [low] && [true, low][1..] == [low];
  }

  lemma ParityOfWord(hi: byte, lo: byte)
    ensures Parity(MessageBits([hi, lo])) == (Parity(ByteBits(hi)) != Parity(ByteBits(lo)))
  {
    hide ByteBits, Parity;
    var word, last := [hi, lo], [lo];
    assert word[1..] == last && last[1..] == [];
    assert MessageBits(last) == ByteBits(lo) + MessageBits([]) == ByteBits(lo);
    assert MessageBits(word) == ByteBits(hi) + ByteBits(lo);
    ParityConcat(ByteBits(hi), ByteBits(lo));
  }

  // 0x7E has six one bits, zero none.
  lemma ParityOfStart()
    ensures !Parity(MessageBits([0x7E, 0x00]))
  {
    hide MessageBits, Parity, ToBits, Power;
    ParityOfWord(0x7E, 0x00);
    PowersOfTwo();
    BitsSplit(0x7E, 4, 4, 0x7, 0xE);
    FourBits(0x7);
    FourBits(0xE);
    ParityConcat(ToBits(0x7, 4), ToBits(0xE, 4));
    ParityOfFour(false, true, true, true);
    ParityOfFour(true, true, true, false);
    BitsOfZero(8);
    ParityOfZeros(8);
  }

  lemma PowersOfTwo()
    ensures Power(4) == 16
  {
  }

  lemma FourBits(n: nat)
    ensures ToBits(n, 4) == [n / 8 % 2 == 1, n / 4 % 2 == 1, n / 2 % 2 == 1, n % 2 == 1]
  {
    assert n / 2 / 2 == n / 4 && n / 4 / 2 == n / 8;
    assert ToBits(n / 8, 1) == ToBits(n / 8 / 2, 0) + [n / 8 % 2 == 1];
    assert ToBits(n / 4, 2) == ToBits(n / 8, 1) + [n / 4 % 2 == 1];
    assert ToBits(n / 2, 3) == ToBits(n / 4, 2) + [n / 2 % 2 == 1];
  }

  lemma ParityOfFour(a: bool, b: bool, c: bool, d: bool)
    ensures Parity([a, b, c, d]) == ((a != b) != (c != d))
  {
    assert [a, b, c, d][1..] == [b, c, d] && [b, c, d][1..] == [c, d] && [c, d][1..] == [d] && [d][1..] == [];
    assert Parity([d]) == d;
    assert Parity([c, d]) == (c != d);
    assert Parity([b, c, d]) == (b != (c != d));
  }

  // The bytes of a frame whose check is right have the parity of the preset.
  lemma ParityOfIntact(lenBytes: seq<byte>, payload: seq<byte>, check: seq<byte>)
    requires |check| == 2 && CheckMatches(lenBytes, payload, check)
    ensures Parity(MessageBits(lenBytes + payload + check)) == Parity(PRESET)
  {
    ResidueIsZero(lenBytes, payload, check);
    UpdateIsBitSerial(PRESET, lenBytes + payload + check);
    CheckKeepsParity(PRESET, MessageBits(lenBytes + payload + check));
    ParityOfZeros(16);
  }

  // A frame read as two bytes longer than it is, up to a START and a zero byte, has a wrong check.
  lemma LongerReadingIsRejected(payload: seq<byte>, check: seq<byte>)
    requires |check| == 2 && |payload| % 4 < 2 && |payload| + 2 < 0x100
    requires CheckMatches([0, |payload| as byte], payload, check)
    ensures !CheckMatches([0, (|payload| + 2) as byte], payload + check, [0x7E, 0x00])
  {
    hide MessageBits, Parity, ByteBits, CheckMatches;
    var n, read := |payload| as byte, (|payload| + 2) as byte;
    var body := payload + check;
    if CheckMatches([0, read], body, [0x7E, 0x00]) {
      ParityOfIntact([0, n], payload, check);
      ParityOfIntact([0, read], body, [0x7E, 0x00]);
      assert [0, n] + payload + check == [0, n] + body;
      ParityOfBytes([0, n], body);
      ParityOfBytes([0, read], body);
      ParityOfBytes([0, read] + body, [0x7E, 0x00]);
      ParityOfStart();
      ParityOfWord(0, n);
      ParityOfWord(0, read);
      BytesApart(|payload|);
      assert false;
    }
  }

  lemma BytesApart(n: nat)
    requires n % 4 < 2 && n + 2 < 0x100
    ensures Parity(ByteBits(n as byte)) != Parity(ByteBits((n + 2) as byte))
  {
    OneBitApart(n);
  }

  lemma {:induction false} MessageBitsConcat(x: seq<byte>, y: seq<byte>)
    ensures MessageBits(x + y) == MessageBits(x) + MessageBits(y)
  {
    hide ByteBits;
    if x == [] {
      assert x + y == y;
    } else {
      assert (x + y)[1..] == x[1..] + y;
      MessageBitsConcat(x[1..], y);
    }
  }

  lemma ParityOfBytes(x: seq<byte>, y: seq<byte>)
    ensures Parity(MessageBits(x + y)) == (Parity(MessageBits(x)) != Parity(MessageBits(y)))
  {
    MessageBitsConcat(x, y);
    ParityConcat(MessageBits(x), MessageBits(y));
  }
}
