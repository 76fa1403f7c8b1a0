/** The table-driven CRC-32 of utils/crc32.c against the bit-serial definition. A 32-bit register is
    the sequence of its bits, the lowest first. */
module Crc32 {
  import opened CStrings
  import opened Bits

  type Word = w: seq<bool> | |w| == 32 witness Repeat(false, 32)

  // ---- the register ---------------------------------------------------------------------------

  const POLY: nat := 0xEDB8_8320

  function Poly(): Word {
    BitsOf(POLY, 32)
  }

  function Xor(a: Word, b: Word): Word {
    seq(32, i requires 0 <= i < 32 => a[i] != b[i])
  }

  /** `bits` in the low end of a register. */
  function Pad(bits: seq<bool>): Word
    requires |bits| <= 32
  {
    bits + Repeat(false, 32 - |bits|)
  }

  /** `c >> n`. */
  function ShiftRight(c: Word, n: nat): Word
    requires n <= 32
  {
    Pad(c[n..])
  }

  /** One round of the table's loop: the polynomial is added when a 1 leaves the register. */
  function Shift(c: Word): Word {
    if c[0] then Xor(ShiftRight(c, 1), Poly()) else ShiftRight(c, 1)
  }

  function Shifts(c: Word, n: nat): Word
    decreases n
  {
    if n == 0 then c else Shifts(Shift(c), n - 1)
  }

  /** CRC-32 as section 8 of RFC 1952 has it, a message bit at a time: the register is shifted, and
      the polynomial added when the bit that leaves it differs from the message bit. */
  function Feed(c: Word, bit: bool): Word {
    if c[0] != bit then Xor(ShiftRight(c, 1), Poly()) else ShiftRight(c, 1)
  }

  function FeedBits(c: Word, bits: seq<bool>): Word
    decreases bits
  {
    if bits == [] then c else FeedBits(Feed(c, bits[0]), bits[1..])
  }

  /** The bits of a byte string, each byte from its lowest bit. */
  function MessageBits(data: seq<byte>): seq<bool> {
    if data == [] then [] else BitsOf(data[0], 8) + MessageBits(data[1..])
  }

  /** 0xFFFFFFFF. */
  function Ones(): Word {
    Repeat(true, 32)
  }

  /** The CRC-32 of a byte string. */
  function Crc(data: seq<byte>): nat {
    Number(Xor(FeedBits(Ones(), MessageBits(data)), Ones()))
  }

  /** Fed its own bits, a register runs empty. */
  lemma {:induction false} RunsEmpty(c: Word, n: nat)
    requires n <= 32 && forall i :: n <= i < 32 ==> !c[i]
    ensures FeedBits(c, c[..n]) == Repeat(false, 32)
    decreases n
  {
    if n == 0 {
      assert c == Repeat(false, 32);
    } else {
      var s := Feed(c, c[0]);
      assert s == ShiftRight(c, 1);
      assert forall i :: 0 <= i < 32 ==> s[i] == (i < 31 && c[i + 1]);
      assert c[..n][1..] == s[..n - 1];
      RunsEmpty(s, n - 1);
    }
  }

  /** Where the register starts and what is made of it at the end: the CRC-32 of no bytes is 0, and that of four bytes of
      ones is all ones. */
  lemma CrcOfOnes()
    ensures Crc([]) == 0 && Crc([255, 255, 255, 255]) == 0xFFFF_FFFF
  {
    hide FeedBits, Number, Xor, Repeat;
    var zero, ones := Repeat(false, 32), Ones();
    XorOnes();
    NumbersOfEnds();
    FourBytesOfOnes();
    RunsEmpty(ones, 32);
    assert ones[..32] == ones;
    NothingFed(ones);
  }

  lemma XorOnes()
    ensures Xor(Ones(), Ones()) == Repeat(false, 32) && Xor(Repeat(false, 32), Ones()) == Ones()
  {
  }

  lemma NothingFed(c: Word)
    ensures FeedBits(c, MessageBits([])) == c
  {
  }

  lemma NumbersOfEnds()
    ensures Number(Repeat(false, 32)) == 0 && Number(Ones()) == 0xFFFF_FFFF
  {
    hide Number, BitsOf, Pow2;
    AllZero(32);
    assert BitsOf(0, 32) == Repeat(false, 32);
    Pow2Values();
    NumberOfBits(0, 32);
    OnesAre(32);
  }

  lemma {:induction false} OnesAre(k: nat)
    ensures Number(Repeat(true, k)) == Pow2(k) - 1
  {
    if k > 0 {
      assert Repeat(true, k)[1..] == Repeat(true, k - 1);
      OnesAre(k - 1);
    }
  }

  lemma FourBytesOfOnes()
    ensures MessageBits([255, 255, 255, 255]) == Ones()
  {
    hide BitsOf;
    OnesAre(8);
    Pow2Values();
    BitsOfNumber(Repeat(true, 8));
    var b, x := [255, 255, 255, 255], BitsOf(255, 8);
    assert b[1..] == [255, 255, 255] && [255, 255, 255][1..] == [255, 255] && [255, 255][1..] == [255] && [255][1..] == [];
    assert MessageBits([255, 255]) == x + (x + []);
    assert MessageBits(b) == x + (x + MessageBits([255, 255]));
  }

  // ---- shifting is linear and loses nothing -----------------------------------------------------

  lemma CrcBound(data: seq<byte>)
    ensures Crc(data) < 0x1_0000_0000
  {
    NumberBound(Xor(FeedBits(Ones(), MessageBits(data)), Ones()));
    Pow2Values();
  }

  lemma TopOfPoly()
    ensures Poly()[31]
  {
    Pow2Values();
    TopBit(POLY, 32);
  }

  lemma FourBits(n: nat, k: nat)
    requires k >= 4
    ensures BitsOf(n, k) == [n % 2 == 1, n / 2 % 2 == 1, n / 4 % 2 == 1, n / 8 % 2 == 1] + BitsOf(n / 16, k - 4)
  {
    assert BitsOf(n, k) == [n % 2 == 1] + BitsOf(n / 2, k - 1);
    assert BitsOf(n / 2, k - 1) == [n / 2 % 2 == 1] + BitsOf(n / 4, k - 2);
    assert BitsOf(n / 4, k - 2) == [n / 4 % 2 == 1] + BitsOf(n / 8, k - 3);
    assert BitsOf(n / 8, k - 3) == [n / 8 % 2 == 1] + BitsOf(n / 16, k - 4);
  }

  lemma PolyBits()
    ensures Poly() == [false, false, false, false, false, true, false, false, true, true, false, false, false, false, false, true,
                       false, false, false, true, true, true, false, true, true, false, true, true, false, true, true, true]
  {
    hide BitsOf;
    FourBits(0xEDB88320, 32);
    FourBits(0xEDB8832, 28);
    FourBits(0xEDB883, 24);
    FourBits(0xEDB88, 20);
    FourBits(0xEDB8, 16);
    FourBits(0xEDB, 12);
    FourBits(0xED, 8);
    FourBits(0xE, 4);
    assert POLY == 0xEDB8_8320;
  }

  /** The polynomial is that of section 8 of RFC 1952, x^32 + x^26 + x^23 + x^22 + x^16 + x^12 + x^11 + x^10 + x^8 + x^7 +
      x^5 + x^4 + x^2 + x + 1: bit `i` of the register stands for x^(31 - i). */
  lemma PolyIs(i: nat)
    requires i < 32
    ensures Poly()[i] <==> 31 - i in {26, 23, 22, 16, 12, 11, 10, 8, 7, 5, 4, 2, 1, 0}
  {
    hide Poly;
    PolyBits();
  }

  lemma {:induction false} TopBit(n: nat, k: nat)
    requires k > 0 && Pow2(k - 1) <= n < Pow2(k)
    ensures BitsOf(n, k)[k - 1]
    decreases k
  {
    if k > 1 { TopBit(n / 2, k - 1); }
  }

  lemma ShiftLinear(a: Word, b: Word)
    ensures Shift(Xor(a, b)) == Xor(Shift(a), Shift(b))
  {
    forall i | 0 <= i < 32 ensures Shift(Xor(a, b))[i] == Xor(Shift(a), Shift(b))[i] {
    }
  }

  lemma {:induction false} ShiftsLinear(a: Word, b: Word, c: Word, n: nat)
    requires c == Xor(a, b)
    ensures Shifts(c, n) == Xor(Shifts(a, n), Shifts(b, n))
    decreases n
  {
    hide Shift, Xor;
    if n > 0 {
      ShiftLinear(a, b);
      ShiftsLinear(Shift(a), Shift(b), Shift(c), n - 1);
    }
  }

  lemma FeedAt(c: Word, bit: bool, i: nat)
    requires i < 32
    ensures Feed(c, bit)[i] == ((i < 31 && c[i + 1]) != (c[0] != bit && Poly()[i]))
  {
  }

  /** A shifted register, and whether the polynomial with its top bit was added, give the register back. */
  lemma Unshift(a: Word, b: Word, bit: bool, r: Word, p: Word)
    requires forall i :: 0 <= i < 32 ==> r[i] == ((i < 31 && a[i + 1]) != (a[0] != bit && p[i]))
    requires forall i :: 0 <= i < 32 ==> r[i] == ((i < 31 && b[i + 1]) != (b[0] != bit && p[i]))
    requires p[31]
    ensures a == b
  {
    assert r[31] == (a[0] != bit) == (b[0] != bit);
    forall i | 0 < i < 32 ensures a[i] == b[i] {
      assert r[i - 1] == (a[i] != (a[0] != bit && p[i - 1]));
      assert r[i - 1] == (b[i] != (b[0] != bit && p[i - 1]));
    }
  }

  lemma FeedInjective(a: Word, b: Word, bit: bool)
    requires Feed(a, bit) == Feed(b, bit)
    ensures a == b
  {
    TopOfPoly();
    var r, p := Feed(a, bit), Poly();
    forall i | 0 <= i < 32 ensures r[i] == ((i < 31 && a[i + 1]) != (a[0] != bit && p[i])) { FeedAt(a, bit, i); }
    forall i | 0 <= i < 32 ensures r[i] == ((i < 31 && b[i + 1]) != (b[0] != bit && p[i])) { FeedAt(b, bit, i); }
    Unshift(a, b, bit, r, p);
  }

  lemma ShiftInjective(a: Word, b: Word)
    requires Shift(a) == Shift(b)
    ensures a == b
  {
    assert Feed(a, false) == Shift(a) && Feed(b, false) == Shift(b);
    FeedInjective(a, b, false);
  }

  lemma {:induction false} ShiftsInjective(a: Word, b: Word, n: nat)
    requires Shifts(a, n) == Shifts(b, n)
    ensures a == b
    decreases n
  {
    if n > 0 {
      ShiftsInjective(Shift(a), Shift(b), n - 1);
      ShiftInjective(a, b);
    }
  }

  lemma {:induction false} FeedBitsInjective(a: Word, b: Word, bits: seq<bool>)
    requires FeedBits(a, bits) == FeedBits(b, bits)
    ensures a == b
    decreases bits
  {
    if bits != [] {
      FeedBitsInjective(Feed(a, bits[0]), Feed(b, bits[0]), bits[1..]);
      FeedInjective(a, b, bits[0]);
    }
  }

  lemma {:induction false} FeedBitsAppend(c: Word, x: seq<bool>, y: seq<bool>)
    ensures FeedBits(c, x + y) == FeedBits(FeedBits(c, x), y)
    decreases x
  {
    if x == [] {
      assert x + y == y;
    } else {
      assert (x + y)[1..] == x[1..] + y;
      FeedBitsAppend(Feed(c, x[0]), x[1..], y);
    }
  }

  // ---- a window of message bits at once -----------------------------------------------------------

  lemma FeedIsShift(c: Word, bits: seq<bool>)
    requires 0 < |bits| <= 32
    ensures Shift(Xor(c, Pad(bits))) == Xor(Feed(c, bits[0]), Pad(bits[1..]))
  {
    var x := Xor(c, Pad(bits));
    assert x[0] == (c[0] != bits[0]);
    forall i | 0 <= i < 32 ensures Shift(x)[i] == Xor(Feed(c, bits[0]), Pad(bits[1..]))[i] {
      assert i < 31 ==> Pad(bits)[i + 1] == Pad(bits[1..])[i];
    }
  }

  /** Feeding up to 32 bits is shifting the register with the bits added to its low end. */
  lemma {:induction false} FeedWindow(c: Word, bits: seq<bool>)
    requires |bits| <= 32
    ensures FeedBits(c, bits) == Shifts(Xor(c, Pad(bits)), |bits|)
    decreases bits
  {
    if bits == [] {
      assert Xor(c, Pad([])) == c;
    } else {
      FeedIsShift(c, bits);
      FeedWindow(Feed(c, bits[0]), bits[1..]);
    }
  }

  lemma {:induction false} ShiftsOfZeros(c: Word, n: nat)
    requires n <= 32 && forall i :: 0 <= i < n ==> !c[i]
    ensures Shifts(c, n) == ShiftRight(c, n)
    decreases n
  {
    if n > 0 {
      assert Shift(c) == ShiftRight(c, 1);
      ShiftsOfZeros(ShiftRight(c, 1), n - 1);
      assert ShiftRight(ShiftRight(c, 1), n - 1) == ShiftRight(c, n);
    } else {
      assert ShiftRight(c, 0) == c;
    }
  }

  /** The table's entry for the low byte, and the rest of the register shifted down: the step of
      `chksum_crc32` is eight steps of the definition. */
  lemma TableStep(c: Word, b: byte)
    ensures var low := Pad(Xor(c, Pad(BitsOf(b, 8)))[..8]);
            FeedBits(c, BitsOf(b, 8)) == Xor(ShiftRight(c, 8), Shifts(low, 8))
  {
    var bits := BitsOf(b, 8);
    var x := Xor(c, Pad(bits));
    var low := Pad(x[..8]);
    var high := Xor(x, low);
    HighPart(c, bits);
    hide FeedBits, Shifts, Xor, Pad, BitsOf, ShiftRight;
    FeedWindow(c, bits);
    ShiftsLinear(high, low, x, 8);
    ShiftsOfZeros(high, 8);
  }

  lemma HighPart(c: Word, bits: seq<bool>)
    requires |bits| == 8
    ensures var x := Xor(c, Pad(bits)); var low := Pad(x[..8]); var high := Xor(x, low);
            && Xor(high, low) == x && ShiftRight(high, 8) == ShiftRight(c, 8)
            && forall i :: 0 <= i < 8 ==> !high[i]
  {
  }

  // ---- bursts ---------------------------------------------------------------------------------------

  lemma {:induction false} MessageBitsAppend(x: seq<byte>, y: seq<byte>)
    ensures MessageBits(x + y) == MessageBits(x) + MessageBits(y)
  {
    if x == [] {
      assert x + y == y;
    } else {
      assert (x + y)[1..] == x[1..] + y;
      MessageBitsAppend(x[1..], y);
    }
  }

  lemma {:induction false} MessageBitsInjective(x: seq<byte>, y: seq<byte>)
    requires |x| == |y| && MessageBits(x) == MessageBits(y)
    ensures x == y && |MessageBits(x)| == 8 * |x|
  {
    if x != [] {
      var mx, my := MessageBits(x), MessageBits(y);
      assert mx[..8] == BitsOf(x[0], 8) && my[..8] == BitsOf(y[0], 8);
      assert mx[8..] == MessageBits(x[1..]) && my[8..] == MessageBits(y[1..]);
      Pow2Values();
      NumberOfBits(x[0], 8);
      NumberOfBits(y[0], 8);
      MessageBitsInjective(x[1..], y[1..]);
    }
  }

  lemma {:induction false} MessageBitsLength(x: seq<byte>)
    ensures |MessageBits(x)| == 8 * |x|
  {
    if x != [] { MessageBitsLength(x[1..]); }
  }

  lemma XorCancels(a: Word, b: Word, c: Word)
    requires Xor(a, c) == Xor(b, c) || Xor(c, a) == Xor(c, b)
    ensures a == b
  {
    forall i | 0 <= i < 32 ensures a[i] == b[i] {
      assert Xor(a, c)[i] == (a[i] != c[i]) && Xor(b, c)[i] == (b[i] != c[i]);
      assert Xor(c, a)[i] == (c[i] != a[i]) && Xor(c, b)[i] == (c[i] != b[i]);
    }
  }

  lemma WindowInjective(c: Word, x: seq<bool>, y: seq<bool>)
    requires |x| == |y| <= 32 && FeedBits(c, x) == FeedBits(c, y)
    ensures x == y
  {
    FeedWindow(c, x);
    FeedWindow(c, y);
    ShiftsInjective(Xor(c, Pad(x)), Xor(c, Pad(y)), |x|);
    XorCancels(Pad(x), Pad(y), c);
    assert x == Pad(x)[..|x|] && y == Pad(y)[..|y|];
  }

  /** Two messages of one length that differ only inside four consecutive bytes have different checksums. */
  lemma BurstDetected(before: seq<byte>, x: seq<byte>, y: seq<byte>, after: seq<byte>)
    requires |x| == |y| <= 4 && x != y
    ensures Crc(before + x + after) != Crc(before + y + after)
  {
    var p, q := MessageBits(before), MessageBits(after);
    var c := FeedBits(Ones(), p);
    MessageParts(before, x, after);
    MessageParts(before, y, after);
    var rx, ry := FeedBits(FeedBits(c, MessageBits(x)), q), FeedBits(FeedBits(c, MessageBits(y)), q);
    if Number(Xor(rx, Ones())) == Number(Xor(ry, Ones())) {
      BitsOfNumber(Xor(rx, Ones()));
      BitsOfNumber(Xor(ry, Ones()));
      XorCancels(rx, ry, Ones());
      FeedBitsInjective(FeedBits(c, MessageBits(x)), FeedBits(c, MessageBits(y)), q);
      MessageBitsLength(x);
      MessageBitsLength(y);
      WindowInjective(c, MessageBits(x), MessageBits(y));
      MessageBitsInjective(x, y);
    }
  }

  lemma MessageParts(before: seq<byte>, x: seq<byte>, after: seq<byte>)
    ensures FeedBits(Ones(), MessageBits(before + x + after))
         == FeedBits(FeedBits(FeedBits(Ones(), MessageBits(before)), MessageBits(x)), MessageBits(after))
  {
    MessageBitsAppend(before + x, after);
    MessageBitsAppend(before, x);
    FeedBitsAppend(Ones(), MessageBits(before) + MessageBits(x), MessageBits(after));
    FeedBitsAppend(Ones(), MessageBits(before), MessageBits(x));
  }

  // ---- four bytes can force any checksum --------------------------------------------------------------

  /** The register before a step is found from the one after it. */
  lemma FeedOnto(r: Word, bit: bool) returns (a: Word)
    ensures Feed(a, bit) == r
  {
    hide Feed, Poly;
    TopOfPoly();
    var low, p := r[31] != bit, Poly();
    a := seq(32, i requires 0 <= i < 32 => if i == 0 then low else r[i - 1] != (r[31] && p[i - 1]));
    var f := Feed(a, bit);
    forall i | 0 <= i < 32 ensures f[i] == r[i] {
      FeedAt(a, bit, i);
      assert i < 31 ==> a[i + 1] == (r[i] != (r[31] && p[i]));
      assert a[0] == low && (a[0] != bit) == r[31];
    }
    assert f == r;
  }

  lemma {:induction false} FeedBitsOnto(r: Word, bits: seq<bool>) returns (a: Word)
    ensures FeedBits(a, bits) == r
    decreases bits
  {
    if bits == [] {
      a := r;
    } else {
      var b := FeedBitsOnto(r, bits[1..]);
      a := FeedOnto(b, bits[0]);
    }
  }

  lemma XorTwice(a: Word, c: Word)
    ensures Xor(c, Xor(c, a)) == a && Xor(a, Pad(Repeat(false, 32))) == a && Pad(a) == a
  {
  }

  /** From any register to any other by some 32 bits. */
  lemma WindowOnto(c: Word, r: Word) returns (w: Word)
    ensures FeedBits(c, w) == r
  {
    var zeros := Repeat(false, 32);
    var a := FeedBitsOnto(r, zeros);
    w := Xor(c, a);
    XorTwice(a, c);
    XorTwice(w, c);
    FeedWindow(a, zeros);
    FeedWindow(c, w);
  }

  lemma ByteOfBits(bits: seq<bool>) returns (b: byte)
    requires |bits| == 8
    ensures BitsOf(b, 8) == bits
  {
    NumberBound(bits);
    Pow2Values();
    b := Number(bits);
    BitsOfNumber(bits);
  }

  lemma FourBytesOfBits(w: Word) returns (x: seq<byte>)
    ensures |x| == 4 && MessageBits(x) == w
  {
    hide BitsOf;
    var b0 := ByteOfBits(w[..8]);
    var b1 := ByteOfBits(w[8..16]);
    var b2 := ByteOfBits(w[16..24]);
    var b3 := ByteOfBits(w[24..]);
    x := [b0, b1, b2, b3];
    assert [b3][1..] == [] && MessageBits([b3]) == w[24..] + [];
    assert [b2, b3][1..] == [b3] && MessageBits([b2, b3]) == w[16..24] + MessageBits([b3]);
    assert [b1, b2, b3][1..] == [b2, b3] && MessageBits([b1, b2, b3]) == w[8..16] + MessageBits([b2, b3]);
    assert x[1..] == [b1, b2, b3] && MessageBits(x) == w[..8] + MessageBits([b1, b2, b3]);
    assert w == w[..8] + (w[8..16] + (w[16..24] + (w[24..] + [])));
  }

  /** Between any bytes, four can be chosen that give the whole any checksum. */
  lemma CrcOnto(before: seq<byte>, after: seq<byte>, crc: nat) returns (x: seq<byte>)
    requires crc < 0x1_0000_0000
    ensures |x| == 4 && Crc(before + x + after) == crc
  {
    hide Feed, Xor;
    Pow2Values();
    NumberOfBits(crc, 32);
    var goal := Xor(Ones(), BitsOf(crc, 32));
    XorTwice(BitsOf(crc, 32), Ones());
    XorCommutes(goal, Ones());
    var r := FeedBitsOnto(goal, MessageBits(after));
    var w := WindowOnto(FeedBits(Ones(), MessageBits(before)), r);
    x := FourBytesOfBits(w);
    MessageParts(before, x, after);
  }

  lemma XorCommutes(a: Word, b: Word)
    ensures Xor(a, b) == Xor(b, a)
  {
  }

  // ---- the code -------------------------------------------------------------------------------------

  ghost function Entry(i: nat): Word {
    Shifts(BitsOf(i, 32), 8)
  }

  /** What `chksum_crc32gentab` leaves in the table. */
  ghost predicate Generated(tab: seq<Word>) {
    |tab| == 256 && forall i :: 0 <= i < 256 ==> tab[i] == Entry(i)
  }

  lemma {:induction false} ShiftsMore(c: Word, n: nat)
    ensures Shifts(c, n + 1) == Shift(Shifts(c, n))
    decreases n
  {
    if n > 0 { ShiftsMore(Shift(c), n - 1); }
  }

  /** `chksum_crc32gentab`. */
  method GenerateTable(tab: array<Word>)
    requires tab.Length == 256
    modifies tab
    ensures Generated(tab[..])
  {
    var i := 0;
    while i < 256
      invariant 0 <= i <= 256
      invariant forall k :: 0 <= k < i ==> tab[k] == Entry(k)
    {
      var crc := TableEntry(i);
      tab[i] := crc;
      i := i + 1;
    }
  }

  /** The inner loop of `chksum_crc32gentab`. */
  method TableEntry(i: nat) returns (crc: Word)
    ensures crc == Entry(i)
  {
    crc := BitsOf(i, 32);
    var j := 8;
    while j > 0
      invariant 0 <= j <= 8 && crc == Shifts(BitsOf(i, 32), 8 - j)
    {
      ShiftsMore(BitsOf(i, 32), 8 - j);
      if crc[0] {
        crc := Xor(ShiftRight(crc, 1), Poly());
      } else {
        crc := ShiftRight(crc, 1);
      }
      j := j - 1;
    }
  }

  lemma LowByteIndex(x: Word)
    ensures Number(x[..8]) < 256 && BitsOf(Number(x[..8]), 32) == Pad(x[..8])
  {
    var bits := x[..8];
    Pow2Values();
    NumberBound(bits);
    NumberPadded(bits, 24);
    BitsOfNumber(Pad(bits));
    assert Pad(bits) == bits + Repeat(false, 24);
  }

  lemma {:induction false} NumberPadded(bits: seq<bool>, n: nat)
    ensures Number(bits + Repeat(false, n)) == Number(bits)
    decreases |bits| + n
  {
    if bits != [] {
      assert (bits + Repeat(false, n))[1..] == bits[1..] + Repeat(false, n);
      NumberPadded(bits[1..], n);
    } else if n > 0 {
      assert [] + Repeat(false, n) == Repeat(false, n);
      assert Repeat(false, n)[1..] == [] + Repeat(false, n - 1);
      NumberPadded([], n - 1);
    }
  }

  lemma {:induction false} MessageBitsSnoc(data: seq<byte>, i: nat)
    requires i < |data|
    ensures MessageBits(data[..i + 1]) == MessageBits(data[..i]) + BitsOf(data[i], 8)
  {
    assert data[..i + 1] == data[..i] + [data[i]];
    MessageBitsAppend(data[..i], [data[i]]);
    assert [data[i]][1..] == [];
    assert MessageBits([data[i]]) == BitsOf(data[i], 8);
  }

  /** One round of `chksum_crc32`. */
  lemma ChecksumStep(tab: seq<Word>, block: seq<byte>, i: nat, crc: Word)
    requires Generated(tab) && i < |block| && crc == FeedBits(Ones(), MessageBits(block[..i]))
    ensures var low := Number(Xor(crc, Pad(BitsOf(block[i], 8)))[..8]);
            low < 256 && Xor(ShiftRight(crc, 8), tab[low]) == FeedBits(Ones(), MessageBits(block[..i + 1]))
  {
    hide FeedBits, MessageBits, ShiftRight;
    LowByteIndex(Xor(crc, Pad(BitsOf(block[i], 8))));
    TableStep(crc, block[i]);
    MessageBitsSnoc(block, i);
    FeedBitsAppend(Ones(), MessageBits(block[..i]), BitsOf(block[i], 8));
  }

  /** `chksum_crc32` with a generated table. */
  method Checksum(tab: array<Word>, block: seq<byte>) returns (crc32: nat)
    requires Generated(tab[..])
    ensures crc32 == Crc(block)
  {
    hide FeedBits, MessageBits, ShiftRight, Pad, BitsOf, Number, Xor, Entry;
    var crc := Ones();
    NothingFed(crc);
    var i := 0;
    while i < |block|
      invariant 0 <= i <= |block|
      invariant crc == FeedBits(Ones(), MessageBits(block[..i]))
    {
      var low := Xor(crc, Pad(BitsOf(block[i], 8)))[..8];
      LowByteIndex(Xor(crc, Pad(BitsOf(block[i], 8))));
      ChecksumStep(tab[..], block, i, crc);
      crc := Xor(ShiftRight(crc, 8), tab[Number(low)]);
      i := i + 1;
    }
    assert block[..i] == block;
    crc32 := Number(Xor(crc, Ones()));
  }
}
