/** The bloom filters of db/bloomFilter.c, for any hash function. */
module BloomFilters {
  import opened CStrings
  import opened Columns
  import opened Bits
  import opened Codec
  import opened Buffers

  /** `hash(data, length, seed)`: any function of the bytes and the seed. */
  type HashFn = (seq<byte>, int32) -> int32

  datatype Filter = Filter(hashCount: int32, strCount: int32, bitsCount: int32, bits: seq<byte>)

  /** C's `%`: the remainder has the sign of the dividend. */
  function TruncMod(a: int, b: int): int
    requires b > 0
  {
    if a >= 0 then a % b else 0 - (0 - a) % b
  }

  function Abs(a: int): nat { if a < 0 then 0 - a else a }

  /** The bit that probe `i` of a key names: products and sums wrap round at 32 bits. */
  function Probe(h: HashFn, key: seq<byte>, bitsCount: int32, i: nat): nat
    requires bitsCount > 0
  {
    var hash1 := h(key, 0);
    var hash2 := h(key, hash1);
    Abs(TruncMod(ToInt32(hash1 + ToInt32(i * hash2)), bitsCount))
  }

  /** Whatever the hash function returns and however the numbers wrap, a probe is inside the filter. */
  lemma ProbeInRange(h: HashFn, key: seq<byte>, bitsCount: int32, i: nat)
    requires bitsCount > 0
    ensures Probe(h, key, bitsCount, i) < bitsCount
  {
  }

  lemma IntAlike(y: int)
    ensures (ToInt32(y) - y) % 0x1_0000_0000 == 0
  {
  }

  /** Probe `i` is the size of an int, modulo the length of the filter, that is the first hash and `i` times the second
      up to multiples of 2^32. */
  lemma ProbeIs(h: HashFn, key: seq<byte>, bitsCount: int32, i: nat) returns (x: int32)
    requires bitsCount > 0
    ensures (x - (h(key, 0) + i * h(key, h(key, 0)))) % 0x1_0000_0000 == 0
    ensures Probe(h, key, bitsCount, i) == (if x < 0 then 0 - x else x) % bitsCount
  {
    hide ToInt32;
    var hash1 := h(key, 0);
    var hash2 := h(key, hash1);
    var step := i * hash2;
    IntAlike(step);
    IntAlike(hash1 + ToInt32(step));
    x := ToInt32(hash1 + ToInt32(step));
    MultiplesAdd(x - (hash1 + ToInt32(step)), ToInt32(step) - step, 0x1_0000_0000);
  }

  lemma MultiplesAdd(a: int, b: int, m: int)
    requires m > 0 && a % m == 0 && b % m == 0
    ensures (a + b) % m == 0
  {
    var p, q := a / m, b / m;
    assert a + b == m * (p + q);
    QuotientIs(a + b, m, p + q, 0);
  }

  lemma ModAdds(a: int, b: int, m: int)
    requires m > 0
    ensures (a % m + b) % m == (a + b) % m
  {
    var q, r := (a + b) / m, (a + b) % m;
    assert a + b == m * q + r && a == m * (a / m) + a % m;
    assert a % m + b == m * (q - a / m) + r;
    QuotientIs(a % m + b, m, q - a / m, r);
  }

  lemma IntItself(y: int)
    requires -0x8000_0000 <= y < 0x8000_0000
    ensures ToInt32(y) == y
  {
  }

  /** Where nothing wraps, the next probe is the second hash further on, modulo the length of the filter; backwards below
      zero. */
  lemma NextProbe(h: HashFn, key: seq<byte>, bitsCount: int32, i: nat)
    requires bitsCount > 0
    ensures var hash1 := h(key, 0); var hash2 := h(key, hash1);
            var a, b := hash1 + i * hash2, hash1 + (i + 1) * hash2;
            && (0 <= a < 0x8000_0000 && 0 <= b < 0x8000_0000 ==>
                  Probe(h, key, bitsCount, i + 1) == (Probe(h, key, bitsCount, i) + hash2) % bitsCount)
            && (-0x8000_0000 <= a <= 0 && -0x8000_0000 <= b <= 0 ==>
                  Probe(h, key, bitsCount, i + 1) == (Probe(h, key, bitsCount, i) - hash2) % bitsCount)
  {
    hide ToInt32, Probe;
    var hash1 := h(key, 0);
    var hash2 := h(key, hash1);
    var a, b := hash1 + i * hash2, hash1 + (i + 1) * hash2;
    assert b == a + hash2;
    if -0x8000_0000 <= a < 0x8000_0000 && -0x8000_0000 <= b < 0x8000_0000 {
      var x := ProbeIs(h, key, bitsCount, i);
      var y := ProbeIs(h, key, bitsCount, i + 1);
      SameInt(x, a);
      SameInt(y, b);
      ModAdds(a, hash2, bitsCount);
      ModAdds(0 - a, 0 - hash2, bitsCount);
    }
  }

  lemma SameInt(x: int, y: int)
    requires (x - y) % 0x1_0000_0000 == 0 && -0x8000_0000 <= x < 0x8000_0000 && -0x8000_0000 <= y < 0x8000_0000
    ensures x == y
  {
  }

  ghost predicate Good(f: Filter) {
    f.bitsCount > 0 && f.bitsCount % 8 == 0 && |f.bits| == f.bitsCount / 8 && f.hashCount >= 0
  }

  predicate IsSet(bits: seq<byte>, entry: nat)
    requires entry < 8 * |bits|
  {
    TestBit(bits[entry / 8], entry % 8)
  }

  function SetBit(bits: seq<byte>, entry: nat): seq<byte>
    requires entry < 8 * |bits|
  {
    bits[entry / 8 := WithBit(bits[entry / 8], entry % 8, true)]
  }

  /** The bit `entry` is that of weight 2^(entry % 8) in byte `entry / 8`. */
  lemma SetBitIs(bits: seq<byte>, entry: nat)
    requires entry < 8 * |bits|
    ensures Pow2(entry % 8) > 0 && (IsSet(bits, entry) <==> bits[entry / 8] / Pow2(entry % 8) % 2 == 1)
    ensures forall j :: 0 <= j < |bits| ==>
              SetBit(bits, entry)[j] == bits[j] + if j == entry / 8 && !IsSet(bits, entry) then Pow2(entry % 8) else 0
  {
    hide TestBit, WithBit;
    WithBitIs(bits[entry / 8], entry % 8, true);
  }

  lemma SetBitOnly(bits: seq<byte>, entry: nat, other: nat)
    requires entry < 8 * |bits| && other < 8 * |bits|
    ensures IsSet(SetBit(bits, entry), other) <==> other == entry || IsSet(bits, other)
  {
    hide TestBit, WithBit;
    if other / 8 == entry / 8 {
      WithBitTest(bits[entry / 8], entry % 8, true, other % 8);
    }
  }

  /** The bits after the first `n` probes of a key are set. */
  function SetProbes(h: HashFn, key: seq<byte>, bitsCount: int32, bits: seq<byte>, n: nat): (r: seq<byte>)
    requires bitsCount > 0 && 8 * |bits| == bitsCount
    ensures |r| == |bits|
  {
    if n == 0 then bits
    else
      ProbeInRange(h, key, bitsCount, n - 1);
      SetBit(SetProbes(h, key, bitsCount, bits, n - 1), Probe(h, key, bitsCount, n - 1))
  }

  /** `addToBF`. */
  function Add(h: HashFn, f: Filter, key: seq<byte>): (r: Filter)
    requires Good(f)
    ensures Good(r) && r.(bits := f.bits) == f
  {
    f.(bits := SetProbes(h, key, f.bitsCount, f.bits, f.hashCount))
  }

  /** All probes of the key are set: a filter that was given the key cannot deny it. */
  ghost predicate Has(h: HashFn, f: Filter, key: seq<byte>)
    requires Good(f)
  {
    forall i: nat :: i < f.hashCount ==>
      Probe(h, key, f.bitsCount, i) < f.bitsCount && IsSet(f.bits, Probe(h, key, f.bitsCount, i))
  }

  /** The bit `b` is one of the first `n` probes. */
  ghost predicate Probed(h: HashFn, key: seq<byte>, bitsCount: int32, n: nat, b: nat)
    requires bitsCount > 0
  {
    exists i: nat :: i < n && Probe(h, key, bitsCount, i) == b
  }

  lemma {:induction false} SetProbesOnly(h: HashFn, key: seq<byte>, bitsCount: int32, bits: seq<byte>, n: nat, b: nat)
    requires bitsCount > 0 && 8 * |bits| == bitsCount && b < bitsCount
    ensures IsSet(SetProbes(h, key, bitsCount, bits, n), b) <==> IsSet(bits, b) || Probed(h, key, bitsCount, n, b)
    decreases n
  {
    hide Probe, IsSet, SetBit;
    if n > 0 {
      SetProbesOnly(h, key, bitsCount, bits, n - 1, b);
      ProbeInRange(h, key, bitsCount, n - 1);
      SetBitOnly(SetProbes(h, key, bitsCount, bits, n - 1), Probe(h, key, bitsCount, n - 1), b);
      assert Probed(h, key, bitsCount, n, b) <==> Probed(h, key, bitsCount, n - 1, b) || Probe(h, key, bitsCount, n - 1) == b;
    }
  }

  /** Adding a key makes the filter have it, and keeps every key it had. */
  lemma AddHas(h: HashFn, f: Filter, key: seq<byte>, other: seq<byte>)
    requires Good(f) && (other == key || Has(h, f, other))
    ensures Has(h, Add(h, f, key), other)
  {
    hide Probe, IsSet, SetProbes;
    var r := Add(h, f, key);
    forall i: nat | i < f.hashCount
      ensures Probe(h, other, f.bitsCount, i) < f.bitsCount && IsSet(r.bits, Probe(h, other, f.bitsCount, i))
    {
      ProbeInRange(h, other, f.bitsCount, i);
      SetProbesOnly(h, key, f.bitsCount, f.bits, f.hashCount, Probe(h, other, f.bitsCount, i));
    }
  }

  /** A filter after keys were added, the last one last. */
  function AddAll(h: HashFn, f: Filter, keys: seq<seq<byte>>): (r: Filter)
    requires Good(f)
    ensures Good(r) && r.(bits := f.bits) == f
  {
    if keys == [] then f else Add(h, AddAll(h, f, keys[..|keys| - 1]), keys[|keys| - 1])
  }

  /** No false negatives: whatever else is added, every added key stays. */
  lemma {:induction false} AddAllHas(h: HashFn, f: Filter, keys: seq<seq<byte>>, key: seq<byte>)
    requires Good(f) && key in keys
    ensures Has(h, AddAll(h, f, keys), key)
  {
    hide Has, Add;
    var init, last := keys[..|keys| - 1], keys[|keys| - 1];
    assert keys == init + [last];
    if key != last { AddAllHas(h, f, init, key); }
    AddHas(h, AddAll(h, f, init), last, key);
  }

  /** And a bit that is set was set before or is a probe of some key. */
  lemma {:induction false} AddAllOnly(h: HashFn, f: Filter, keys: seq<seq<byte>>, b: nat)
    requires Good(f) && b < f.bitsCount
    ensures IsSet(AddAll(h, f, keys).bits, b) <==>
            IsSet(f.bits, b) || exists k :: k in keys && Probed(h, k, f.bitsCount, f.hashCount, b)
  {
    hide IsSet, SetProbes, Probe;
    if keys != [] {
      var init, last := keys[..|keys| - 1], keys[|keys| - 1];
      assert keys == init + [last];
      AddAllOnly(h, f, init, b);
      SetProbesOnly(h, last, f.bitsCount, AddAll(h, f, init).bits, f.hashCount, b);
    }
  }

  lemma NothingSet(bits: seq<byte>)
    requires forall i :: 0 <= i < |bits| ==> bits[i] == 0
    ensures forall b: nat :: b < 8 * |bits| ==> !IsSet(bits, b)
  {
    forall b: nat | b < 8 * |bits| ensures !IsSet(bits, b) {
      ZeroBits(b % 8);
    }
  }

  // ---- serialising ------------------------------------------------------------------------------------------

  /** `serializeBF`. */
  function EncFilter(f: Filter): seq<byte> {
    EncInt(f.hashCount) + (EncInt(f.strCount) + (EncInt(f.bitsCount) + EncBytes(f.bits)))
  }

  /** `desrializeBF`. */
  function DecFilter(b: seq<byte>, p: nat): Dec<Filter> {
    var (hashCount, p1) :- DecInt(b, p);
    var (strCount, p2) :- DecInt(b, p1);
    var (bitsCount, p3) :- DecInt(b, p2);
    var (bits, p4) :- DecBytes(b, p3);
    Ok(Filter(hashCount, strCount, bitsCount, bits), p4)
  }

  lemma FilterRoundTrip(b: seq<byte>, p: nat, f: Filter)
    requires Good(f) && Holds(b, p, EncFilter(f))
    ensures DecFilter(b, p) == Ok(f, p + |EncFilter(f)|)
  {
    hide GetByte, FromBytes, DecInt, DecBytes;
    var e := EncBytes(f.bits);
    HoldsSplit(b, p, EncInt(f.hashCount), EncInt(f.strCount) + (EncInt(f.bitsCount) + e));
    HoldsSplit(b, p + 4, EncInt(f.strCount), EncInt(f.bitsCount) + e);
    HoldsSplit(b, p + 8, EncInt(f.bitsCount), e);
    IntRoundTrip(b, p, f.hashCount);
    IntRoundTrip(b, p + 4, f.strCount);
    IntRoundTrip(b, p + 8, f.bitsCount);
    BytesRoundTrip(b, p + 12, f.bits);
  }

  /** The bytes of a filter for so many probes and keys. */
  function ByteCount(hashCount: nat, strCount: nat): (n: int)
    ensures n > 0
  {
    hashCount * strCount / 8 + 1
  }

  /** The filter has a bit more than probes of keys, and less than nine. */
  lemma BitsAreEnough(hashCount: nat, strCount: nat)
    ensures hashCount * strCount < 8 * ByteCount(hashCount, strCount) <= hashCount * strCount + 8
  {
  }

  // ---- the object --------------------------------------------------------------------------------------------

  class BloomFilter {
    var hashCount: int32
    var strCount: int32
    var bitsCount: int32
    var filterBit: array<byte>

    /** `getBloomFilter`; the product of the counts must fit an int with room for the last byte. */
    constructor (hashCount: int32, strCount: int32)
      requires hashCount >= 0 && strCount >= 0 && ByteCount(hashCount, strCount) < 0x1000_0000
      ensures Valid() && fresh(filterBit) && this.hashCount == hashCount && this.strCount == strCount
      ensures bitsCount == 8 * ByteCount(hashCount, strCount) && forall b: nat :: b < bitsCount ==> !IsSet(Value().bits, b)
    {
      hide IsSet, ByteCount;
      this.hashCount, this.strCount := hashCount, strCount;
      var n: int := ByteCount(hashCount, strCount);
      bitsCount := n * 8;
      filterBit := new byte[n](_ => 0);
      new;
      NothingSet(filterBit[..]);
    }

    ghost predicate Valid()
      reads this, filterBit
    {
      Good(Value())
    }

    ghost function Value(): Filter
      reads this, filterBit
    {
      Filter(hashCount, strCount, bitsCount, filterBit[..])
    }

    /** `addToBF`. */
    method AddToBF(h: HashFn, bytes: seq<byte>)
      requires Valid()
      modifies filterBit
      ensures Valid() && Value() == Add(h, old(Value()), bytes)
    {
      hide TestBit, WithBit, ToInt32;
      ghost var was := filterBit[..];
      var hash1 := h(bytes, 0);
      var hash2 := h(bytes, hash1);
      var i := 0;
      while i < hashCount
        invariant 0 <= i <= hashCount && filterBit[..] == SetProbes(h, bytes, bitsCount, was, i)
      {
        var entry := Abs(TruncMod(ToInt32(hash1 + ToInt32(i * hash2)), bitsCount));
        ProbeInRange(h, bytes, bitsCount, i);
        filterBit[entry / 8] := WithBit(filterBit[entry / 8], entry % 8, true);
        i := i + 1;
      }
    }

    /** `serializeBF`. */
    method SerializeBF(buff: Buffer)
      requires Valid() && buff.Valid() && buff.buff != filterBit
      modifies buff, buff.buff
      ensures buff.Valid() && buff.Written() == old(buff.Written()) + EncFilter(Value()) && Value() == old(Value())
    {
      hide EncInt, EncBytes, Good;
      ghost var f := Value();
      FourParts(buff.Written(), EncInt(hashCount), EncInt(strCount), EncInt(bitsCount), EncBytes(f.bits));
      buff.WriteInt(hashCount);
      buff.WriteInt(strCount);
      buff.WriteInt(bitsCount);
      buff.WriteBytes(filterBit[..]);
    }

    /** A filter with given fields. */
    constructor Of(hashCount: int32, strCount: int32, bitsCount: int32, bytes: seq<byte>)
      ensures Value() == Filter(hashCount, strCount, bitsCount, bytes)
    {
      this.hashCount, this.strCount, this.bitsCount := hashCount, strCount, bitsCount;
      filterBit := new byte[|bytes|](i requires 0 <= i < |bytes| => bytes[i]);
      new;
      assert filterBit[..] == bytes;
    }

    /** `desrializeBF`. */
    static method Deserialize(buff: Buffer) returns (st: Status, bf: BloomFilter?)
      requires buff.Valid()
      modifies buff`pos
      ensures buff.Valid() && st == StatusOf(DecFilter(buff.Bytes(), old(buff.pos)))
      ensures st == Done ==> bf != null && DecFilter(buff.Bytes(), old(buff.pos)) == Ok(bf.Value(), buff.pos)
    {
      hide DecBytes;
      var ok, hashCount, strCount, bitsCount, bytes;
      ok, hashCount := buff.ReadInt();
      if !ok { return Failed, null; }
      ok, strCount := buff.ReadInt();
      if !ok { return Failed, null; }
      ok, bitsCount := buff.ReadInt();
      if !ok { return Failed, null; }
      st, bytes := buff.ReadBytes();
      if st != Done { return st, null; }
      bf := new BloomFilter.Of(hashCount, strCount, bitsCount, bytes);
    }

    /** `dupBloomFilter`. */
    constructor Dup(bf: BloomFilter)
      requires bf.Valid()
      ensures Valid() && Value() == bf.Value() && fresh(filterBit)
    {
      var bytes := bf.filterBit[..];
      hashCount, strCount, bitsCount := bf.hashCount, bf.strCount, bf.bitsCount;
      filterBit := new byte[|bytes|](i requires 0 <= i < |bytes| => bytes[i]);
      new;
      assert filterBit[..] == bytes;
    }
  }

  lemma FourParts(p: seq<byte>, x: seq<byte>, y: seq<byte>, z: seq<byte>, w: seq<byte>)
    ensures p + x + y + z + w == p + (x + (y + (z + w)))
  {
  }
}
