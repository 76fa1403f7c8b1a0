/** Where each field stands in the bytes that are written to disk (serialize/serialize.c, db/column.c,
    db/columnFamily.c, db/rowMutation.c, db/commitLog.c, db/bloomFilter.c), and what becomes of bytes that nobody wrote. */
module Layouts {
  import opened CStrings
  import opened Columns
  import opened Bits
  import opened Codec
  import opened LogHeaders
  import opened BloomFilters

  /** The four bytes at `p` are those of `n`, the lowest first; a negative number has the bits of its complement. */
  predicate IntAt(b: seq<byte>, p: nat, n: int) {
    p + 4 <= |b| &&
    var b0: int, b1: int, b2: int, b3: int := b[p], b[p + 1], b[p + 2], b[p + 3];
    (b0 + 0x100 * b1 + 0x1_0000 * b2 + 0x100_0000 * b3 - n) % 0x1_0000_0000 == 0
  }

  /** At `p` stand the length of a string with its terminator, its characters and the terminator. */
  predicate StrAt(b: seq<byte>, p: nat, s: CStr) {
    && IntAt(b, p, |s| + 1) && p + 5 + |s| <= |b|
    && (forall i :: 0 <= i < |s| ==> b[p + 4 + i] == s[i]) && b[p + 4 + |s|] == 0
  }

  lemma SameRest(x: int, n: int)
    requires x == n % 0x1_0000_0000
    ensures (x - n) % 0x1_0000_0000 == 0
  {
  }

  lemma IntStands(b: seq<byte>, p: nat, n: int)
    requires Holds(b, p, EncInt(n))
    ensures IntAt(b, p, n)
  {
    HoldsBytes(b, p, n);
    SameRest(FromBytes(b, p), n);
  }

  lemma CharactersOf(s: CStr)
    ensures var t := Terminated(s); |t| == |s| + 1 && t[|s|] == 0 && forall i :: 0 <= i < |s| ==> t[i] == s[i]
  {
  }

  lemma StrStands(b: seq<byte>, p: nat, s: CStr)
    requires Holds(b, p, EncStr(s))
    ensures StrAt(b, p, s)
  {
    hide IntAt, GetByte;
    var t := Terminated(s);
    HoldsSplit(b, p, EncInt(|t|), t);
    IntStands(b, p, |t|);
    CharactersOf(s);
    assert forall i :: 0 <= i < |t| ==> t[i] == b[p + 4 + i];
  }

  /** A column: name, value, timestamp and delete mark. */
  lemma ColumnLayout(b: seq<byte>, p: nat, c: Column)
    requires Holds(b, p, EncColumn(c))
    ensures |EncColumn(c)| == |c.name| + |c.value| + 15
    ensures StrAt(b, p, c.name) && StrAt(b, p + 5 + |c.name|, c.value)
    ensures IntAt(b, p + 10 + |c.name| + |c.value|, c.timestamp) && b[p + 14 + |c.name| + |c.value|] == c.del
  {
    hide StrAt, IntAt, GetByte;
    var name, value, time, del := EncStr(c.name), EncStr(c.value), EncInt(c.timestamp), [c.del];
    HoldsSplit(b, p, name, value + (time + del));
    HoldsSplit(b, p + |name|, value, time + del);
    HoldsSplit(b, p + |name| + |value|, time, del);
    StrStands(b, p, c.name);
    StrStands(b, p + |name|, c.value);
    IntStands(b, p + |name| + |value|, c.timestamp);
    assert del[0] == b[p + |name| + |value| + 4 + 0];
  }

  /** The lengths of the columns before the one at `i`. */
  function Before(cs: seq<Column>, i: nat): nat
    requires i <= |cs|
  {
    if i == 0 then 0 else Before(cs, i - 1) + (|cs[i - 1].name| + |cs[i - 1].value| + 15)
  }

  lemma {:induction false} BeforeTail(cs: seq<Column>, i: nat)
    requires 0 < i <= |cs|
    ensures Before(cs, i) == |cs[0].name| + |cs[0].value| + 15 + Before(cs[1..], i - 1)
  {
    if i > 1 { BeforeTail(cs, i - 1); }
  }

  lemma {:induction false} ColumnStands(b: seq<byte>, p: nat, cs: seq<Column>, i: nat)
    requires Holds(b, p, EncCols(cs)) && i < |cs|
    ensures Holds(b, p + Before(cs, i), EncColumn(cs[i]))
    decreases i
  {
    hide EncColumn;
    var first := EncColumn(cs[0]);
    HoldsSplit(b, p, first, EncCols(cs[1..]));
    if i > 0 {
      ColumnLayout(b, p, cs[0]);
      BeforeTail(cs, i);
      ColumnStands(b, p + |first|, cs[1..], i - 1);
    }
  }

  /** A family: its two delete marks, the number of its columns, and these in the order of their names. */
  lemma FamilyLayout(b: seq<byte>, p: nat, f: Family, i: nat)
    requires Holds(b, p, EncFamily(f))
    ensures IntAt(b, p, f.marked) && IntAt(b, p + 4, f.local) && IntAt(b, p + 8, |f.cols|)
    ensures i < |f.cols| ==> Holds(b, p + 12 + Before(f.cols, i), EncColumn(f.cols[i]))
  {
    hide IntAt, GetByte, EncCols, EncColumn, EncInt, Holds;
    var n, cols := EncInt(|f.cols|), EncCols(f.cols);
    FourLong(f.marked);
    FourLong(f.local);
    FourLong(|f.cols|);
    HoldsSplit(b, p, EncInt(f.marked), EncInt(f.local) + (n + cols));
    HoldsSplit(b, p + 4, EncInt(f.local), n + cols);
    HoldsSplit(b, p + 8, n, cols);
    IntStands(b, p, f.marked);
    IntStands(b, p + 4, f.local);
    IntStands(b, p + 8, |f.cols|);
    if i < |f.cols| { ColumnStands(b, p + 12, f.cols, i); }
  }

  lemma FourLong(n: int)
    ensures |EncInt(n)| == 4
  {
  }

  /** A mutation: keyspace, key and family name, and the family. */
  lemma MutationLayout(b: seq<byte>, p: nat, m: Mutation)
    requires Holds(b, p, EncMutation(m))
    ensures StrAt(b, p, m.keyspace) && StrAt(b, p + 5 + |m.keyspace|, m.key)
    ensures StrAt(b, p + 10 + |m.keyspace| + |m.key|, m.cfName)
    ensures Holds(b, p + 15 + |m.keyspace| + |m.key| + |m.cfName|, EncFamily(m.cf))
  {
    hide StrAt, EncFamily;
    var x, y, z, f := EncStr(m.keyspace), EncStr(m.key), EncStr(m.cfName), EncFamily(m.cf);
    HoldsSplit(b, p, x, y + (z + f));
    HoldsSplit(b, p + |x|, y, z + f);
    HoldsSplit(b, p + |x| + |y|, z, f);
    StrStands(b, p, m.keyspace);
    StrStands(b, p + |x|, m.key);
    StrStands(b, p + |x| + |y|, m.cfName);
  }

  lemma {:induction false} IntInList(b: seq<byte>, p: nat, s: seq<int32>, i: nat)
    requires Holds(b, p, EncInts(s)) && i < |s|
    ensures IntAt(b, p + 4 * i, s[i])
    decreases i
  {
    hide IntAt, GetByte;
    HoldsSplit(b, p, EncInt(s[0]), EncInts(s[1..]));
    if i == 0 { IntStands(b, p, s[0]); } else { IntInList(b, p + 4, s[1..], i - 1); }
  }

  /** A log header: the number of families, the length of the bitmap and the bitmap, and the position of each family. The bit
      of family `f` has the weight 2^(f % 8) in byte `f / 8`. */
  lemma HeaderLayout(b: seq<byte>, h: Header, f: nat)
    requires WellFormed(h) && Holds(b, 0, EncHeader(h)) && f < h.cfCount
    ensures IntAt(b, 0, h.cfCount) && IntAt(b, 4, h.cfCount / 8 + 1) && IntAt(b, 9 + h.cfCount / 8 + 4 * f, h.posAt[f])
    ensures Pow2(f % 8) > 0 && 8 + f / 8 < |b| && (IsDirty(h, f) <==> b[8 + f / 8] / Pow2(f % 8) % 2 == 1)
  {
    hide IntAt, GetByte, EncInts, TestBit;
    var n, len, bits, pos := EncInt(h.cfCount), EncInt(|h.dirtyBit|), h.dirtyBit, EncInts(h.posAt);
    HoldsSplit(b, 0, n, len + bits + pos);
    HoldsSplit(b, 4, len + bits, pos);
    HoldsSplit(b, 4, len, bits);
    IntStands(b, 0, h.cfCount);
    IntStands(b, 4, |h.dirtyBit|);
    IntInList(b, 8 + |bits|, h.posAt, f);
    WithBitIs(bits[f / 8], f % 8, true);
    assert bits[f / 8] == b[8 + f / 8];
  }

  /** A filter: its three counts, the length of its bytes and these. */
  lemma FilterLayout(b: seq<byte>, p: nat, f: Filter)
    requires Holds(b, p, EncFilter(f))
    ensures IntAt(b, p, f.hashCount) && IntAt(b, p + 4, f.strCount) && IntAt(b, p + 8, f.bitsCount)
    ensures IntAt(b, p + 12, |f.bits|) && Holds(b, p + 16, f.bits)
  {
    hide IntAt, GetByte;
    var x, y, z, n := EncInt(f.hashCount), EncInt(f.strCount), EncInt(f.bitsCount), EncInt(|f.bits|);
    HoldsSplit(b, p, x, y + (z + (n + f.bits)));
    HoldsSplit(b, p + 4, y, z + (n + f.bits));
    HoldsSplit(b, p + 8, z, n + f.bits);
    HoldsSplit(b, p + 12, n, f.bits);
    IntStands(b, p, f.hashCount);
    IntStands(b, p + 4, f.strCount);
    IntStands(b, p + 8, f.bitsCount);
    IntStands(b, p + 12, |f.bits|);
  }

  // ---- bytes that nobody wrote ------------------------------------------------------------------------------

  /** Reading a byte array fails when its length is cut off or has its top bit; it succeeds exactly on what `writeBytes`
      writes; and otherwise it reads outside the buffer. */
  lemma BytesRead(b: seq<byte>, p: nat)
    ensures DecBytes(b, p).Fail? <==> |b| < p + 4 || b[p + 3] >= 0x80
    ensures DecBytes(b, p).Ok? <==> exists x: seq<byte> :: |x| < 0x8000_0000 && Holds(b, p, EncBytes(x))
    ensures DecBytes(b, p).Ok? ==> Holds(b, p, EncBytes(DecBytes(b, p).value)) && DecBytes(b, p).pos == p + 4 + |DecBytes(b, p).value|
  {
    hide EncBytes, DecBytes;
    if |b| >= p + 4 { LengthRead(b, p); }
    OkBytes(b, p);
    forall x: seq<byte> | |x| < 0x8000_0000 && Holds(b, p, EncBytes(x)) ensures DecBytes(b, p).Ok? {
      BytesRoundTrip(b, p, x);
    }
    FailBytes(b, p);
  }

  lemma LengthRead(b: seq<byte>, p: nat)
    requires p + 4 <= |b|
    ensures DecInt(b, p).Ok? && (DecInt(b, p).value < 0 <==> b[p + 3] >= 0x80)
    ensures DecInt(b, p).value >= 0 ==> Holds(b, p, EncInt(DecInt(b, p).value))
  {
    hide FromBytes, ToInt32, EncInt;
    BytesOfNumber(b, p);
    Sign(b, p);
  }

  lemma Sign(b: seq<byte>, p: nat)
    requires p + 4 <= |b|
    ensures ToInt32(FromBytes(b, p)) < 0 <==> b[p + 3] >= 0x80
    ensures ToInt32(FromBytes(b, p)) >= 0 ==> ToInt32(FromBytes(b, p)) == FromBytes(b, p)
  {
    var b0: int, b1: int, b2: int, b3: int := b[p], b[p + 1], b[p + 2], b[p + 3];
    assert b0 + 0x100 * b1 + 0x1_0000 * b2 <= 0xFF_FFFF;
  }

  lemma FailBytes(b: seq<byte>, p: nat)
    ensures DecBytes(b, p).Fail? <==> |b| < p + 4 || b[p + 3] >= 0x80
  {
    hide DecInt;
    if |b| >= p + 4 { LengthRead(b, p); } else { TooShort(b, p); }
  }

  lemma TooShort(b: seq<byte>, p: nat)
    requires |b| < p + 4
    ensures DecInt(b, p) == Fail
  {
  }

  lemma OkBytes(b: seq<byte>, p: nat)
    ensures DecBytes(b, p).Ok? ==>
              var x := DecBytes(b, p).value; |x| < 0x8000_0000 && Holds(b, p, EncBytes(x)) && DecBytes(b, p).pos == p + 4 + |x|
  {
    hide GetByte, FromBytes, ToInt32;
    if DecBytes(b, p).Ok? {
      LengthRead(b, p);
      var x := DecBytes(b, p).value;
      HoldsSplit(b, p, EncInt(|x|), x);
      HoldsSlice(b, p + 4, x);
    }
  }

  /** A mutation of a family that is not known or not standard is refused, whatever follows its names. */
  lemma UnknownRefused(cat: Catalogue, b: seq<byte>, p: nat, keyspace: CStr, key: CStr, cfName: CStr)
    requires |keyspace| < 0x7FFF_FFFF && |key| < 0x7FFF_FFFF && |cfName| < 0x7FFF_FFFF
    requires Holds(b, p, EncStr(keyspace) + (EncStr(key) + (EncStr(cfName) + [])))
    requires (keyspace, cfName) in cat ==> !cat[(keyspace, cfName)].standard
    ensures DecMutation(cat, b, p) == Fail
  {
    hide EncStr, DecBytes, DecFamily, CString, Terminated;
    ThreeStrings(b, p, keyspace, key, cfName, [], EncStr(keyspace) + (EncStr(key) + (EncStr(cfName) + [])));
    StrTerminated(keyspace);
    StrTerminated(cfName);
  }

  /** A column set whose count is negative is read as an empty one. */
  lemma NegativeCount(b: seq<byte>, p: nat)
    requires p + 4 <= |b| && b[p + 3] >= 0x80
    ensures DecColumnSet(b, p) == Ok([], p + 4)
  {
    LengthRead(b, p);
  }

  /** Numbers are read exactly when there are bytes for all of them. */
  lemma {:induction false} IntsRead(b: seq<byte>, p: nat, count: nat)
    ensures DecInts(b, p, count) == Fail <==> |b| < p + 4 * count && count > 0
    ensures DecInts(b, p, count).Ok? <==> count == 0 || |b| >= p + 4 * count
    decreases count
  {
    hide FromBytes, ToInt32;
    if count > 0 {
      IntsRead(b, p + 4, count - 1);
    }
  }

  /** A log header whose bitmap can be read is refused exactly when its family count is negative or the file has not the
      positions of so many. */
  lemma HeaderRead(b: seq<byte>)
    requires |b| >= 4 && DecBytes(b, 4).Ok?
    ensures DecHeader(b) == Fail <==> b[3] >= 0x80 || (DecInt(b, 0).value > 0 && |b| < DecBytes(b, 4).pos + 4 * DecInt(b, 0).value)
    ensures DecHeader(b) == Fail || DecHeader(b).Ok?
  {
    hide DecBytes, FromBytes, ToInt32, DecInts;
    LengthRead(b, 0);
    if DecInt(b, 0).value >= 0 {
      IntsRead(b, DecBytes(b, 4).pos, DecInt(b, 0).value);
    }
  }
}
