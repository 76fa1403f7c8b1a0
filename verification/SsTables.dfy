/** Writing a memtable to an SSTable (flushToDisk, db/memTable.c, and db/ssTable.c): a data file of blocks, an
    index of their offsets, and a bloom filter of the keys. */
module SsTables {
  import opened CStrings
  import opened Columns
  import opened Codec
  import opened Files
  import opened BloomFilters

  // ---- the order of the keys --------------------------------------------------------------------------------

  ghost predicate SortedKeys(keys: seq<CStr>) {
    forall i, j :: 0 <= i < j < |keys| ==> StrCmp(keys[i], keys[j]) < 0
  }

  function InsertKey(k: CStr, s: seq<CStr>): seq<CStr> {
    if s == [] then [k]
    else if StrCmp(k, s[0]) < 0 then [k] + s
    else [s[0]] + InsertKey(k, s[1..])
  }

  /** What `qsort` with `keyCompare` makes of keys that are all different. */
  function Sort(keys: seq<CStr>): seq<CStr> {
    if keys == [] then [] else InsertKey(keys[0], Sort(keys[1..]))
  }

  ghost predicate Different(keys: seq<CStr>) {
    forall i, j :: 0 <= i < j < |keys| ==> keys[i] != keys[j]
  }

  lemma {:induction false} InsertKeySorted(k: CStr, s: seq<CStr>)
    requires SortedKeys(s) && k !in s
    ensures SortedKeys(InsertKey(k, s)) && |InsertKey(k, s)| == |s| + 1
    ensures forall x :: x in InsertKey(k, s) <==> x == k || x in s
  {
    if s == [] {
    } else if StrCmp(k, s[0]) < 0 {
      forall i, j | 0 <= i < j < |[k] + s| ensures StrCmp(([k] + s)[i], ([k] + s)[j]) < 0 {
        if i == 0 && j > 1 { StrCmpTransitive(k, s[0], s[j - 1]); }
      }
    } else {
      var r := InsertKey(k, s[1..]);
      assert s == [s[0]] + s[1..];
      InsertKeySorted(k, s[1..]);
      StrCmpZeroIffEqual(k, s[0]);
      StrCmpAntisymmetric(k, s[0]);
      forall x | x in r ensures StrCmp(s[0], x) < 0 {
        if x != k {
          var i :| 0 <= i < |s[1..]| && s[1..][i] == x;
          assert s[i + 1] == x;
        }
      }
      forall i, j | 0 <= i < j < |[s[0]] + r| ensures StrCmp(([s[0]] + r)[i], ([s[0]] + r)[j]) < 0 {
        if i == 0 { assert r[j - 1] in r; }
      }
    }
  }

  lemma {:induction false} SortIs(keys: seq<CStr>)
    requires Different(keys)
    ensures SortedKeys(Sort(keys)) && |Sort(keys)| == |keys| && forall x :: x in Sort(keys) <==> x in keys
  {
    if keys != [] {
      var k, rest := keys[0], keys[1..];
      assert keys == [k] + rest;
      assert forall i :: 0 <= i < |rest| ==> rest[i] == keys[i + 1];
      SortIs(rest);
      InsertKeySorted(k, Sort(rest));
    }
  }

  // ---- the files --------------------------------------------------------------------------------------------

  type Rows = map<CStr, Family>

  /** The block of a key in the data file. */
  function DataBlock(key: CStr, f: Family): seq<byte> {
    EncStr(key) + EncFamily(f)
  }

  function Blocks(rows: Rows, keys: seq<CStr>): (r: seq<seq<byte>>)
    requires forall k :: k in keys ==> k in rows
    ensures |r| == |keys|
  {
    seq(|keys|, i requires 0 <= i < |keys| => DataBlock(keys[i], rows[keys[i]]))
  }

  /** Where the block of the key at `i` begins. */
  function Offset(rows: Rows, keys: seq<CStr>, i: nat): nat
    requires i <= |keys| && forall k :: k in keys ==> k in rows
  {
    |Frames(Blocks(rows, keys[..i]))|
  }

  /** The index entries of the first `i` keys. */
  function Index(rows: Rows, keys: seq<CStr>, i: nat): seq<byte>
    requires i <= |keys| && forall k :: k in keys ==> k in rows
  {
    if i == 0 then [] else Index(rows, keys, i - 1) + (EncStr(keys[i - 1]) + EncInt(Offset(rows, keys, i - 1)))
  }

  ghost predicate GoodRows(rows: Rows) {
    forall k :: k in rows ==> GoodFamily(rows[k]) && GoodBlock(DataBlock(k, rows[k]))
  }

  lemma BlocksStep(rows: Rows, keys: seq<CStr>, i: nat)
    requires i < |keys| && forall k :: k in keys ==> k in rows
    ensures Blocks(rows, keys[..i + 1]) == Blocks(rows, keys[..i]) + [DataBlock(keys[i], rows[keys[i]])]
    ensures Frames(Blocks(rows, keys[..i + 1])) == Frames(Blocks(rows, keys[..i])) + Frame(DataBlock(keys[i], rows[keys[i]]))
  {
    hide Frames, DataBlock;
    FramesSnoc(Blocks(rows, keys[..i]), DataBlock(keys[i], rows[keys[i]]));
  }

  lemma BlocksAround(rows: Rows, keys: seq<CStr>, i: nat)
    requires i < |keys| && forall k :: k in keys ==> k in rows
    ensures Holds(Frames(Blocks(rows, keys)), Offset(rows, keys, i), Frame(DataBlock(keys[i], rows[keys[i]])))
  {
    hide Frames, Frame, DataBlock;
    var a, x, c := Blocks(rows, keys[..i]), DataBlock(keys[i], rows[keys[i]]), Blocks(rows, keys[i + 1..]);
    assert Blocks(rows, keys) == (a + [x]) + c;
    FramesAppend(a + [x], c);
    FramesSnoc(a, x);
    Inside(Frames(a), Frame(x), Frames(c));
  }

  lemma Inside(a: seq<byte>, x: seq<byte>, c: seq<byte>)
    ensures Holds(a + x + c, |a|, x)
  {
  }

  /** The block at a key's offset is read whole and gives the key and its family back. */
  lemma BlockReadsBack(rows: Rows, keys: seq<CStr>, i: nat, b: seq<byte>)
    requires i < |keys| && (forall k :: k in keys ==> k in rows) && GoodRows(rows)
    requires Holds(b, 0, DataBlock(keys[i], rows[keys[i]]))
    ensures var d := DataBlock(keys[i], rows[keys[i]]);
            ReadBlock(Frames(Blocks(rows, keys)), Offset(rows, keys, i)) == Block(d, Offset(rows, keys, i) + |Frame(d)|)
    ensures DecStr(b, 0) == Ok(keys[i], |EncStr(keys[i])|) && DecFamily(b, |EncStr(keys[i])|).Ok?
    ensures DecFamily(b, |EncStr(keys[i])|).value == rows[keys[i]]
  {
    hide EncStr, EncFamily, DecStr, DecFamily, ReadBlock, GoodFamily, Frames, Frame;
    var k := keys[i];
    BlocksAround(rows, keys, i);
    ReadFrame(Frames(Blocks(rows, keys)), Offset(rows, keys, i), DataBlock(k, rows[k]));
    assert |k| < 0x7FFF_FFFF by { ShortKey(k, rows[k]); }
    StrThen(b, 0, k, EncFamily(rows[k]));
    FamilyRoundTrip(b, |EncStr(k)|, rows[k]);
  }

  lemma ShortKey(k: CStr, f: Family)
    requires GoodBlock(DataBlock(k, f))
    ensures |k| < 0x7FFF_FFFF
  {
    hide EncFamily;
    assert |EncStr(k)| == |k| + 5;
  }

  lemma {:induction false} IndexHas(rows: Rows, keys: seq<CStr>, i: nat, n: nat)
    requires i < n <= |keys| && forall k :: k in keys ==> k in rows
    ensures Holds(Index(rows, keys, n), |Index(rows, keys, i)|, EncStr(keys[i]) + EncInt(Offset(rows, keys, i)))
    decreases n
  {
    hide EncStr, GetByte, Offset;
    if i < n - 1 { IndexHas(rows, keys, i, n - 1); }
  }

  /** Each index entry gives its key back, and its offset exactly when this fits an int. */
  lemma IndexReadsBack(rows: Rows, keys: seq<CStr>, i: nat, b: seq<byte>)
    requires i < |keys| && (forall k :: k in keys ==> k in rows) && GoodRows(rows) && Holds(b, 0, Index(rows, keys, |keys|))
    ensures var p := |Index(rows, keys, i)|;
            && DecStr(b, p) == Ok(keys[i], p + |EncStr(keys[i])|)
            && (DecInt(b, p + |EncStr(keys[i])|) == Ok(Offset(rows, keys, i), p + |EncStr(keys[i])| + 4) <==> Offset(rows, keys, i) < 0x8000_0000)
  {
    hide EncStr, DecStr, DecInt, GetByte, Offset, Index;
    IndexHas(rows, keys, i, |keys|);
    var e, p, o := EncStr(keys[i]), |Index(rows, keys, i)|, Offset(rows, keys, i);
    assert Holds(b, p, e + EncInt(o)) by { HoldsInside(b, Index(rows, keys, |keys|), p, e + EncInt(o)); }
    ShortKey(keys[i], rows[keys[i]]);
    HoldsSplit(b, p, e, EncInt(o));
    StrThen(b, p, keys[i], EncInt(o));
    LongRoundTrip(b, p + |e|, o);
  }

  lemma HoldsInside(b: seq<byte>, x: seq<byte>, p: nat, e: seq<byte>)
    requires Holds(b, 0, x) && Holds(x, p, e)
    ensures Holds(b, p, e)
  {
    assert forall i :: 0 <= i < |e| ==> e[i] == x[p + i] == b[0 + (p + i)];
  }

  /** The SSTable of a memtable: the data file, the index block and the filter. */
  datatype SSTable = SSTable(data: seq<byte>, index: seq<byte>, filter: Filter)

  function KeyBytes(keys: seq<CStr>): (r: seq<seq<byte>>)
    ensures |r| == |keys| && forall i :: 0 <= i < |keys| ==> r[i] == keys[i]
  {
    seq(|keys|, i requires 0 <= i < |keys| => var b: seq<byte> := keys[i]; b)
  }

  /** What `flushToDisk` writes when the dictionary gives its keys in `order`. */
  function Flush(h: HashFn, rows: Rows, order: seq<CStr>, f: Filter): SSTable
    requires Good(f) && Different(order) && forall k :: k in order <==> k in rows
  {
    SortIs(order);
    SSTable(Frames(Blocks(rows, Sort(order))), Index(rows, Sort(order), |order|), AddAll(h, f, KeyBytes(Sort(order))))
  }

  /** Every key of the memtable is in the SSTable exactly once, in increasing order; the block at its offset
      holds the key and its family; its offset can be read back if the data file is below 2^31 bytes; and the
      filter has it. */
  lemma FlushHoldsTable(h: HashFn, rows: Rows, order: seq<CStr>, f: Filter, key: CStr) returns (i: nat)
    requires Good(f) && Different(order) && (forall k :: k in order <==> k in rows) && GoodRows(rows) && key in rows
    requires |Flush(h, rows, order, f).data| < 0x8000_0000
    ensures SortedKeys(Sort(order)) && i < |Sort(order)| && Sort(order)[i] == key
    ensures forall j :: 0 <= j < |Sort(order)| && Sort(order)[j] == key ==> j == i
    ensures forall k :: k in Sort(order) <==> k in rows
    ensures var s, p, off := Flush(h, rows, order, f), |Index(rows, Sort(order), i)|, Offset(rows, Sort(order), i);
            && Has(h, s.filter, key)
            && DecStr(s.index, p) == Ok(key, p + |EncStr(key)|) && DecInt(s.index, p + |EncStr(key)|) == Ok(off, p + |EncStr(key)| + 4)
            && ReadBlock(s.data, off).Block? && ReadBlock(s.data, off).data == DataBlock(key, rows[key])
            && DecStr(DataBlock(key, rows[key]), 0) == Ok(key, |EncStr(key)|)
            && DecFamily(DataBlock(key, rows[key]), |EncStr(key)|).Ok?
            && DecFamily(DataBlock(key, rows[key]), |EncStr(key)|).value == rows[key]
  {
    hide EncStr, DecStr, DecFamily, ReadBlock, GoodFamily, Frames, Has, DataBlock, Index, Offset, DecInt, AddAll;
    var keys := Sort(order);
    SortIs(order);
    i :| 0 <= i < |keys| && keys[i] == key;
    forall j | 0 <= j < |keys| && keys[j] == key ensures j == i {
      StrCmpZeroIffEqual(key, key);
    }
    var d := DataBlock(key, rows[key]);
    BlockReadsBack(rows, keys, i, d);
    IndexReadsBack(rows, keys, i, Index(rows, keys, |keys|));
    OffsetInside(rows, keys, i);
    assert KeyBytes(keys)[i] == key;
    AddAllHas(h, f, KeyBytes(keys), key);
  }

  lemma OffsetInside(rows: Rows, keys: seq<CStr>, i: nat)
    requires i < |keys| && forall k :: k in keys ==> k in rows
    ensures Offset(rows, keys, i) <= |Frames(Blocks(rows, keys))|
  {
    BlocksAround(rows, keys, i);
  }
}
