/** Numbers as sequences of bits, the lowest first. */
module Bits {
  import opened CStrings

  function Repeat(bit: bool, n: nat): (bits: seq<bool>)
    ensures |bits| == n && forall i :: 0 <= i < n ==> bits[i] == bit
  {
    if n == 0 then [] else [bit] + Repeat(bit, n - 1)
  }

  function BitsOf(n: nat, k: nat): (bits: seq<bool>)
    ensures |bits| == k
    decreases k
  {
    if k == 0 then [] else [n % 2 == 1] + BitsOf(n / 2, k - 1)
  }

  function Number(bits: seq<bool>): nat {
    if bits == [] then 0 else (if bits[0] then 1 else 0) + 2 * Number(bits[1..])
  }

  function Pow2(n: nat): nat { if n == 0 then 1 else 2 * Pow2(n - 1) }

  lemma {:induction false} NumberBound(bits: seq<bool>)
    ensures Number(bits) < Pow2(|bits|)
  {
    if bits != [] { NumberBound(bits[1..]); }
  }

  lemma {:induction false} NumberOfBits(n: nat, k: nat)
    requires n < Pow2(k)
    ensures Number(BitsOf(n, k)) == n
    decreases k
  {
    if k > 0 {
      NumberOfBits(n / 2, k - 1);
      assert BitsOf(n, k)[1..] == BitsOf(n / 2, k - 1);
    }
  }

  lemma {:induction false} BitsOfNumber(bits: seq<bool>)
    ensures BitsOf(Number(bits), |bits|) == bits
  {
    if bits != [] { BitsOfNumber(bits[1..]); }
  }

  lemma {:induction false} LowBits(bits: seq<bool>, k: nat)
    requires forall i :: k <= i < |bits| ==> !bits[i]
    ensures Number(bits) < Pow2(k)
    decreases |bits|
  {
    if bits == [] {
      Pow2Positive(k);
    } else {
      LowBits(bits[1..], if k == 0 then 0 else k - 1);
    }
  }

  lemma {:induction false} Pow2Positive(k: nat)
    ensures Pow2(k) > 0
  {
    if k > 0 { Pow2Positive(k - 1); }
  }

  lemma {:induction false} SomeBit(bits: seq<bool>, i: nat)
    requires i < |bits| && bits[i]
    ensures Number(bits) > 0
  {
    if i > 0 { SomeBit(bits[1..], i - 1); }
  }

  lemma Pow2Values()
    ensures Pow2(8) == 0x100 && Pow2(31) == 0x8000_0000 && Pow2(32) == 0x1_0000_0000
  {
    assert Pow2(4) == 16;
    assert Pow2(8) == 256;
    assert Pow2(12) == 0x1000;
    assert Pow2(16) == 0x1_0000;
    assert Pow2(20) == 0x10_0000;
    assert Pow2(24) == 0x100_0000;
    assert Pow2(28) == 0x1000_0000;
  }

  // ---- the bits of a byte ------------------------------------------------------------------------

  /** `(b & (1 << i)) != 0`. */
  predicate TestBit(b: byte, i: nat)
    requires i < 8
  {
    BitsOf(b, 8)[i]
  }

  /** The low byte of `b | 1 << i`, or of `b & ~(1 << i)`. */
  function WithBit(b: byte, i: nat, bit: bool): byte
    requires i < 8
  {
    var bits := BitsOf(b, 8)[i := bit];
    NumberBound(bits);
    Pow2Values();
    Number(bits)
  }

  lemma WithBitTest(b: byte, i: nat, bit: bool, j: nat)
    requires i < 8 && j < 8
    ensures TestBit(WithBit(b, i, bit), j) == if j == i then bit else TestBit(b, j)
  {
    BitsOfNumber(BitsOf(b, 8)[i := bit]);
  }

  /** Bit `i` has the weight 2^i. */
  lemma {:induction false} BitAt(n: nat, k: nat, i: nat)
    requires i < k
    ensures Pow2(i) > 0 && (BitsOf(n, k)[i] <==> n / Pow2(i) % 2 == 1)
    decreases i
  {
    Pow2Positive(i);
    if i > 0 {
      BitAt(n / 2, k - 1, i - 1);
      Halves(n, Pow2(i - 1));
    }
  }

  lemma Halves(n: nat, m: nat)
    requires m > 0
    ensures n / 2 / m == n / (2 * m)
  {
    var q, r := n / 2 / m, n / 2 % m;
    assert n / 2 == m * q + r;
    assert n == (2 * m) * q + (2 * r + n % 2);
    QuotientIs(n, 2 * m, q, 2 * r + n % 2);
  }

  /** Quotient and remainder are determined. */
  lemma QuotientIs(n: int, d: nat, q: int, r: int)
    requires 0 <= r < d && n == d * q + r
    ensures n / d == q && n % d == r
  {
    var k := q - n / d;
    AtLeastOnce(d, k);
    assert d * q == d * (n / d) + d * k;
  }

  lemma AtLeastOnce(d: nat, k: int)
    ensures (k >= 1 ==> d * k >= d) && (k <= -1 ==> d * k <= 0 - d)
  {
  }

  /** The remainder of twice as much, and the bit below. */
  lemma Doubled(a: nat, m: nat)
    requires m > 0
    ensures a % (2 * m) == 2 * (a / 2 % m) + a % 2
  {
    var q, r := a / 2 / m, a / 2 % m;
    assert a / 2 == m * q + r;
    assert a == (2 * m) * q + (2 * r + a % 2);
    QuotientIs(a, 2 * m, q, 2 * r + a % 2);
  }

  lemma {:induction false} NumberWith(bits: seq<bool>, i: nat, bit: bool)
    requires i < |bits|
    ensures Number(bits[i := bit]) == Number(bits) + (if bit then Pow2(i) else 0) - if bits[i] then Pow2(i) else 0
  {
    if i > 0 {
      NumberWith(bits[1..], i - 1, bit);
      assert bits[i := bit][1..] == bits[1..][i - 1 := bit];
    } else {
      assert bits[0 := bit][1..] == bits[1..];
    }
  }

  /** Setting or clearing bit `i` of a byte adds or takes away 2^i, unless it was so. */
  lemma WithBitIs(b: byte, i: nat, bit: bool)
    requires i < 8
    ensures Pow2(i) > 0 && (TestBit(b, i) <==> b / Pow2(i) % 2 == 1)
    ensures WithBit(b, i, bit) == b + (if bit && !TestBit(b, i) then Pow2(i) else 0) - if !bit && TestBit(b, i) then Pow2(i) else 0
  {
    BitAt(b, 8, i);
    Pow2Values();
    NumberOfBits(b, 8);
    NumberWith(BitsOf(b, 8), i, bit);
  }

  lemma ZeroBits(i: nat)
    requires i < 8
    ensures !TestBit(0, i)
  {
    AllZero(8);
  }

  lemma {:induction false} AllZero(k: nat)
    ensures forall i :: 0 <= i < k ==> !BitsOf(0, k)[i]
  {
    if k > 0 { AllZero(k - 1); }
  }
}
