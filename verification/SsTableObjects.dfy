/** The SSTable object of db/ssTable.c, and `flushToDisk` of db/memTable.c on it. */
module SsTableObjects {
  import opened CStrings
  import opened Columns
  import opened Codec
  import opened Buffers
  import opened Files
  import opened BloomFilters
  import opened SsTables
  import opened Families
  import opened MemTableObjects

  class SsTable {
    const dataFile: FileAbstract
    const indexFile: FileAbstract
    const filterFile: FileAbstract
    const bf: BloomFilter

    /** `openWriteSSTable` for `keyCount` keys. */
    constructor (keyCount: int32)
      requires keyCount > 0 && ByteCount(KEYHASHCOUNT, keyCount) < 0x1000_0000
      ensures Valid() && fresh(Repr()) && dataFile.bytes == [] && indexFile.bytes == [] && filterFile.bytes == []
      ensures forall b: nat :: b < bf.bitsCount ==> !IsSet(bf.Value().bits, b)
    {
      dataFile := new FileAbstract([]);
      indexFile := new FileAbstract([]);
      filterFile := new FileAbstract([]);
      bf := new BloomFilter(KEYHASHCOUNT, keyCount);
    }

    ghost function Repr(): set<object>
      reads bf
    {
      {this, dataFile, indexFile, filterFile, bf, bf.filterBit}
    }

    /** The files are written from their ends on. */
    ghost predicate Valid()
      reads this, dataFile, indexFile, filterFile, bf, bf.filterBit
    {
      && dataFile != indexFile && dataFile != filterFile && indexFile != filterFile && bf.Valid()
      && dataFile.pos == |dataFile.bytes| && indexFile.pos == |indexFile.bytes| && filterFile.pos == |filterFile.bytes|
    }

    /** `writeSSTableData`: the position before the append. */
    method WriteSSTableData(buff: Buffer) returns (curPos: nat)
      requires Valid() && buff.Valid() && buff.pos > 0
      modifies dataFile
      ensures Valid() && curPos == |old(dataFile.bytes)| && dataFile.bytes == old(dataFile.bytes) + Frame(buff.Written())
    {
      hide Frame, Good;
      curPos := dataFile.pos;
      dataFile.WriteAppend(buff);
      AtEnd(old(dataFile.bytes), Frame(buff.Written()));
    }

    /** `writeSSTableIndex`. */
    method WriteSSTableIndex(buff: Buffer) returns (curPos: nat)
      requires Valid() && buff.Valid() && buff.pos > 0
      modifies indexFile
      ensures Valid() && curPos == |old(indexFile.bytes)| && indexFile.bytes == old(indexFile.bytes) + Frame(buff.Written())
    {
      hide Frame, Good;
      curPos := indexFile.pos;
      indexFile.WriteAppend(buff);
      AtEnd(old(indexFile.bytes), Frame(buff.Written()));
    }

    /** `openReadFromWrite`: the filter goes to its file, and the reader gets a copy of it. */
    method OpenReadFromWrite() returns (reader: BloomFilter)
      requires Valid()
      modifies filterFile
      ensures Valid() && filterFile.bytes == old(filterFile.bytes) + Frame(EncFilter(bf.Value()))
      ensures fresh(reader) && reader.Valid() && reader.Value() == bf.Value()
    {
      hide Frame, Good, EncFilter;
      var buff := FilterBlock();
      filterFile.WriteAppend(buff);
      AtEnd(old(filterFile.bytes), Frame(buff.Written()));
      reader := new BloomFilter.Dup(bf);
    }

    method FilterBlock() returns (buff: Buffer)
      requires bf.Valid()
      ensures fresh(buff) && buff.Valid() && buff.pos > 0 && buff.Written() == EncFilter(bf.Value())
    {
      hide Good;
      buff := new Buffer();
      ghost var before := buff.Written();
      bf.SerializeBF(buff);
      assert before + EncFilter(bf.Value()) == EncFilter(bf.Value());
      assert buff.pos == |buff.Written()|;
    }
  }

  const KEYHASHCOUNT: int32 := 16

  lemma AtEnd(file: seq<byte>, x: seq<byte>)
    ensures WriteAt(file, |file|, x) == file + x
  {
  }

  /** A row of a memtable in the data buffer. */
  method SerializeRow(key: CStr, cf: ColumnFamily, ghost own: set<object>, ghost cfm: Metadata, ghost f: Family, data: Buffer)
    requires Row(cf, own, cfm, f) && data.Valid() && data.pos == 0
    modifies data, data.buff
    ensures data.Valid() && data.Written() == DataBlock(key, f) && data.pos > 0 && (data.buff == old(data.buff) || fresh(data.buff))
  {
    hide EncBytes, EncFamily, EncInt, ColumnFamily.Valid;
    assert cf.Valid() && cf.Value() == f;
    ghost var none := data.Written();
    data.WriteBytes(Terminated(key));
    SerializeCF(cf, data);
    assert none + EncStr(key) + EncFamily(f) == DataBlock(key, f);
    NotEmptyBlock(key, f);
    assert data.pos == |data.Written()|;
  }

  lemma NotEmptyBlock(key: CStr, f: Family)
    ensures |DataBlock(key, f)| > 0
  {
    hide EncFamily;
  }

  /** The entry of a key in the index buffer. */
  method WriteEntry(key: CStr, pos: nat, index: Buffer)
    requires index.Valid()
    modifies index, index.buff
    ensures index.Valid() && index.Written() == old(index.Written()) + (EncStr(key) + EncInt(pos))
    ensures index.buff == old(index.buff) || fresh(index.buff)
  {
    hide EncBytes, EncInt;
    ghost var was := index.Written();
    index.WriteBytes(Terminated(key));
    index.WriteInt(pos);
    assert was + EncStr(key) + EncInt(pos) == was + (EncStr(key) + EncInt(pos));
  }

  /** `flushToDisk`; `order` are the keys as the dictionary's iterator gives them. */
  method FlushToDisk(h: HashFn, mt: MemTable, order: seq<CStr>, sst: SsTable)
    requires mt.Valid() && sst.Valid() && ({mt} + mt.parts) !! sst.Repr()
    requires Different(order) && order != [] && forall k :: k in order <==> k in mt.families
    requires sst.dataFile.bytes == [] && sst.indexFile.bytes == []
    modifies sst.dataFile, sst.indexFile, sst.bf.filterBit
    ensures sst.Valid() && mt.Valid() && mt.families == old(mt.families) && Good(old(sst.bf.Value()))
    ensures var s := Flush(h, mt.families, order, old(sst.bf.Value()));
            sst.dataFile.bytes == s.data && sst.indexFile.bytes == Frame(s.index) && sst.bf.Value() == s.filter
  {
    hide Frame, Frames, Good, AddAll, Blocks, Index, MemTable.Valid;
    ghost var rows, f := mt.families, sst.bf.Value();
    var keys := Sort(order);
    SortIs(order);
    var data := new Buffer();
    var index := new Buffer();
    FlushStart(h, rows, keys, f);
    var i := 0;
    while i < |keys|
      invariant 0 <= i <= |keys| && mt.Valid() && mt.families == rows && sst.Valid()
      invariant fresh(data) && fresh(data.buff) && data.Valid() && data.pos == 0
      invariant fresh(index) && fresh(index.buff) && index.Valid() && data != index && data.buff != index.buff
      invariant sst.dataFile.bytes == Frames(Blocks(rows, keys[..i])) && sst.indexFile.bytes == []
      invariant index.Written() == Index(rows, keys, i) && sst.bf.Value() == AddAll(h, f, KeyBytes(keys[..i]))
    {
      FlushRow(h, mt, keys, i, data, index, sst, f);
      i := i + 1;
    }
    IndexNotEmpty(rows, keys);
    assert index.pos == |index.Written()|;
    var pos := sst.WriteSSTableIndex(index);
    assert keys[..|keys|] == keys;
    assert [] + Frame(Index(rows, keys, |keys|)) == Frame(Index(rows, keys, |keys|));
  }

  lemma FlushStart(h: HashFn, rows: Rows, keys: seq<CStr>, f: Filter)
    requires Good(f) && forall k :: k in keys ==> k in rows
    ensures Frames(Blocks(rows, keys[..0])) == [] && Index(rows, keys, 0) == [] && AddAll(h, f, KeyBytes(keys[..0])) == f
  {
  }

  lemma IndexNotEmpty(rows: Rows, keys: seq<CStr>)
    requires keys != [] && forall k :: k in keys ==> k in rows
    ensures |Index(rows, keys, |keys|)| > 0
  {
    hide Offset;
  }

  /** One round of the loop in `flushToDisk`. */
  method FlushRow(h: HashFn, mt: MemTable, keys: seq<CStr>, i: nat, data: Buffer, index: Buffer, sst: SsTable, ghost f: Filter)
    requires mt.Valid() && sst.Valid() && i < |keys| && (forall k :: k in keys ==> k in mt.families) && Good(f)
    requires data.Valid() && data.pos == 0 && index.Valid() && data != index && data.buff != index.buff
    requires {data, data.buff, index, index.buff} !! ({mt} + mt.parts + sst.Repr()) && ({mt} + mt.parts) !! sst.Repr()
    requires sst.dataFile.bytes == Frames(Blocks(mt.families, keys[..i])) && index.Written() == Index(mt.families, keys, i)
    requires sst.bf.Value() == AddAll(h, f, KeyBytes(keys[..i]))
    modifies data, data.buff, index, index.buff, sst.dataFile, sst.bf.filterBit
    ensures mt.Valid() && mt.families == old(mt.families) && sst.Valid()
    ensures data.Valid() && data.pos == 0 && index.Valid()
    ensures (data.buff == old(data.buff) || fresh(data.buff)) && (index.buff == old(index.buff) || fresh(index.buff)) && data.buff != index.buff
    ensures sst.dataFile.bytes == Frames(Blocks(mt.families, keys[..i + 1])) && index.Written() == Index(mt.families, keys, i + 1)
    ensures sst.bf.Value() == AddAll(h, f, KeyBytes(keys[..i + 1]))
  {
    hide Frame, Frames, Good, AddAll, Blocks, DataBlock, EncStr, EncInt, Add, MemTable.Valid;
    ghost var rows := mt.families;
    var key := keys[i];
    BlocksStep(rows, keys, i);
    var pos := RowToFile(mt, key, data, sst);
    WriteEntry(key, pos, index);
    KeyAdded(h, f, keys, i);
    sst.bf.AddToBF(h, key);
  }

  /** The key and its family as a block of the data file. */
  method RowToFile(mt: MemTable, key: CStr, data: Buffer, sst: SsTable) returns (pos: nat)
    requires mt.Valid() && sst.Valid() && key in mt.families && data.Valid() && data.pos == 0
    requires {data, data.buff} !! ({mt} + mt.parts + sst.Repr()) && sst.dataFile !in {mt} + mt.parts
    modifies data, data.buff, sst.dataFile
    ensures sst.Valid() && data.Valid() && data.pos == 0 && (data.buff == old(data.buff) || fresh(data.buff))
    ensures pos == |old(sst.dataFile.bytes)| && sst.dataFile.bytes == old(sst.dataFile.bytes) + Frame(DataBlock(key, mt.families[key]))
  {
    hide Row, Frame, Good, DataBlock, MemTable.Valid;
    RowOf(mt, key);
    SerializeRow(key, mt.rows[key], mt.own[key], mt.cfm, mt.families[key], data);
    pos := sst.WriteSSTableData(data);
    data.Reset();
  }

  lemma RowOf(mt: MemTable, key: CStr)
    requires mt.Valid() && key in mt.families
    ensures key in mt.rows && key in mt.own && mt.own[key] <= mt.parts && Row(mt.rows[key], mt.own[key], mt.cfm, mt.families[key])
  {
    hide Row;
  }

  lemma KeyAdded(h: HashFn, f: Filter, keys: seq<CStr>, i: nat)
    requires Good(f) && i < |keys|
    ensures AddAll(h, f, KeyBytes(keys[..i + 1])) == Add(h, AddAll(h, f, KeyBytes(keys[..i])), keys[i])
  {
    hide Add;
    var all := KeyBytes(keys[..i + 1]);
    assert all[..i] == KeyBytes(keys[..i]);
  }
}
