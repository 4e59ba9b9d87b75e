/** Unsigned integers as bit patterns, most significant bit first, and the C operators the CRC uses. */
module Bits {
  function Power(k: nat): (p: nat)
    ensures p >= 1
  {
    if k == 0 then 1 else 2 * Power(k - 1)
  }

  function ToBits(n: nat, k: nat): (bits: seq<bool>)
    ensures |bits| == k
  {
    if k == 0 then [] else ToBits(n / 2, k - 1) + [n % 2 == 1]
  }

  function ToNumber(bits: seq<bool>): (n: nat)
    ensures n < Power(|bits|)
  {
    if bits == [] then 0
    else 2 * ToNumber(bits[..|bits| - 1]) + (if bits[|bits| - 1] then 1 else 0)
  }

  function Zeros(n: nat): (bits: seq<bool>)
    ensures |bits| == n && forall i :: 0 <= i < n ==> !bits[i]
  {
    seq(n, _ => false)
  }

  // x ^ y
  function Xor(x: seq<bool>, y: seq<bool>): (z: seq<bool>)
    requires |x| == |y|
    ensures |z| == |x| && forall i :: 0 <= i < |z| ==> z[i] == (x[i] != y[i])
  {
    seq(|x|, i requires 0 <= i < |x| => x[i] != y[i])
  }

  // x << 1
  function ShiftLeft(x: seq<bool>): (z: seq<bool>)
    requires |x| > 0
    ensures |z| == |x|
  {
    x[1..] + [false]
  }

  lemma {:induction false} NumberOfBits(n: nat, k: nat)
    requires n < Power(k)
    ensures ToNumber(ToBits(n, k)) == n
  {
    if k > 0 {
      NumberOfBits(n / 2, k - 1);
      assert ToBits(n, k)[..k - 1] == ToBits(n / 2, k - 1);
    }
  }

  lemma {:induction false} BitsOfNumber(bits: seq<bool>)
    ensures ToBits(ToNumber(bits), |bits|) == bits
  {
    if bits != [] {
      var init := bits[..|bits| - 1];
      BitsOfNumber(init);
      assert ToNumber(bits) / 2 == ToNumber(init);
    }
  }

  lemma {:induction false} NumberConcat(x: seq<bool>, y: seq<bool>)
    ensures ToNumber(x + y) == ToNumber(x) * Power(|y|) + ToNumber(y)
  {
    if y == [] {
      assert x + y == x;
    } else {
      var init := y[..|y| - 1];
      assert (x + y)[..|x + y| - 1] == x + init;
      NumberConcat(x, init);
      Doubled(ToNumber(x), Power(|init|), Power(|y|));
    }
  }

  lemma Doubled(n: nat, p: nat, q: nat)
    requires q == 2 * p
    ensures 2 * (n * p) == n * q
  {
  }

  lemma PowerValues()
    ensures Power(8) == 0x100 && Power(16) == 0x1_0000
  {
    assert Power(4) == 0x10;
    assert Power(8) == 0x10 * Power(4);
    assert Power(12) == 0x10 * Power(8);
  }

  lemma {:induction false} BitsSplit(n: nat, j: nat, k: nat, q: nat, r: nat)
    requires r < Power(k) && n == q * Power(k) + r
    ensures ToBits(n, j + k) == ToBits(q, j) + ToBits(r, k)
    decreases k
  {
    if k > 0 {
      Doubled(q, Power(k - 1), Power(k));
      BitsSplit(n / 2, j, k - 1, q, r / 2);
    }
  }

  lemma DivisionIsUnique(n: int, p: int, q: int, r: int)
    requires 0 <= r < p && n == p * q + r
    ensures n / p == q && n % p == r
  {
    var d := n / p - q;
    assert p * d == r - n % p;
    assert d > 0 ==> p * d >= p;
    assert d < 0 ==> p * d <= -p;
  }

  lemma {:induction false} BitsOfZero(k: nat)
    ensures ToBits(0, k) == Zeros(k)
  {
    if k > 0 { BitsOfZero(k - 1); }
  }
}
