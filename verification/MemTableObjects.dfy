/** The memtable object of db/memTable.c: a table of the families of keys, and the column count. */
module MemTableObjects {
  import opened CStrings
  import opened Columns
  import opened ColumnMerge
  import opened RbShape
  import opened RbTree
  import opened ColumnSets
  import opened Codec
  import opened MemTables
  import opened Families

  /** A family of `cfm` with the value `f` that consists of the objects `own`. */
  ghost predicate Row(cf: ColumnFamily, own: set<object>, cfm: Metadata, f: Family)
    reads own
  {
    && cf in own && cf.columnorSuper in own && cf.columnorSuper.header in own
    && cf.Repr() == own && Nodes(cf.columnorSuper.header.tree) <= own && cf.Valid() && cf.cfm == cfm && cf.Value() == f
  }

  /** Parts of `parts` that share nothing. */
  ghost predicate Separate(own: map<CStr, set<object>>, parts: set<object>) {
    (forall k :: k in own ==> own[k] <= parts) && (forall k, l :: k in own && l in own && k != l ==> own[k] !! own[l])
  }

  /** The part of `key` may grow by objects from outside. */
  lemma StillSeparate(own: map<CStr, set<object>>, parts: set<object>, key: CStr, now: set<object>, other: set<object>)
    requires Separate(own, parts) && other !! parts && now <= other + if key in own then own[key] else {}
    ensures Separate(own[key := now], parts + other)
  {
    var own' := own[key := now];
    forall k, l | k in own' && l in own' && k != l ensures own'[k] !! own'[l] {
      if k != key { assert own[k] <= parts; }
      if l != key { assert own[l] <= parts; }
    }
  }

  /** What is outside the part of `key` does not touch the other parts. */
  lemma Elsewhere(own: map<CStr, set<object>>, parts: set<object>, key: CStr, other: set<object>)
    requires Separate(own, parts) && key in own && other !! parts
    ensures forall k :: k in own && k != key ==> own[k] !! own[key] + other
  {
  }

  lemma Outside(own: map<CStr, set<object>>, parts: set<object>, x: object)
    requires Separate(own, parts) && x !in parts
    ensures forall k :: k in own ==> x !in own[k]
  {
  }

  lemma IsRow(cf: ColumnFamily)
    requires cf.Valid()
    ensures Row(cf, cf.Repr(), cf.cfm, cf.Value())
  {
  }

  /** `insertCF` of rows. */
  method MergeRows(cf: ColumnFamily, ghost own: set<object>, ghost f: Family,
                   inserted: ColumnFamily, ghost other: set<object>, ghost g: Family, ghost cfm: Metadata)
    returns (ret: int, ghost now: set<object>)
    requires Row(cf, own, cfm, f) && Row(inserted, other, cfm, g) && own !! other
    modifies own, other
    ensures now <= own + other && Row(cf, now, cfm, MergeFamily(f, g)) && ret == MergeReturn(f.cols, g.cols)
  {
    ret := InsertCF(cf, inserted);
    now := cf.Repr();
    IsRow(cf);
  }

  class MemTable {
    ghost const cfm: Metadata
    var rows: map<CStr, ColumnFamily>
    var columnCount: int
    ghost var own: map<CStr, set<object>>
    ghost var families: map<CStr, Family>
    ghost var parts: set<object>

    /** `getMemTable`. */
    constructor (ghost cfm: Metadata)
      ensures Valid() && Value() == EMPTY && parts == {} && this.cfm == cfm
    {
      this.cfm := cfm;
      rows, columnCount, own, families, parts := map[], 0, map[], map[], {};
    }

    /** Every key has its family, and families share nothing. */
    ghost predicate Valid()
      reads this, parts
    {
      && this !in parts && own.Keys == rows.Keys && families.Keys == rows.Keys
      && Separate(own, parts)
      && (forall k :: k in rows ==> Row(rows[k], own[k], cfm, families[k]))
    }

    ghost function Value(): MemT
      reads this
    {
      MemT(families, columnCount)
    }

    /** `insertMemTable`: the family is taken over, or drained into the one that is there. */
    method InsertMemTable(rm: RowMutation) returns (columnAdd: int)
      requires Valid() && rm.Valid() && rm.cf.cfm == cfm && rm !in parts && this !in rm.cf.Repr()
      requires rm.cf.Repr() !! parts + {rm}
      modifies this, parts, rm, rm.cf.Repr()
      ensures Valid() && parts == old(parts + rm.cf.Repr())
      ensures Value() == Insert(old(Value()), old(rm.key), old(rm.cf.Value()))
      ensures columnAdd == InsertReturn(old(Value()), old(rm.key), old(rm.cf.Value()))
    {
      hide Row, ColumnFamily.Valid, Insert, InsertReturn;
      ghost var other, f := rm.cf.Repr(), rm.cf.Value();
      IsRow(rm.cf);
      columnAdd := ColumnCount(rm.cf);
      var taken := rm.key !in rows;
      columnAdd := InsertPair(rm.key, rm.cf, columnAdd, other, f);
      if taken {
        rm.cf := null;
      }
    }

    /** `needFlush`. */
    method NeedFlush() returns (r: int)
      ensures r == 1 <==> NeedsFlush(Value())
      ensures r == -1 <==> Value().columnCount < 0
    {
      var count := columnCount;
      if count < 0 { return -1; }
      if count > COLUMNCOUNTTHRESHOLD { return 1; }
      return 0;
    }

    /** `findColumn`. */
    method FindColumn(key: CStr, columnName: CStr) returns (c: Node?)
      requires Valid()
      ensures c == null <==> Read(Value(), key, columnName) == None
      ensures c != null ==> Read(Value(), key, columnName) == Some(c.col)
    {
      hide ColumnFamily.Valid, Separate;
      if key !in rows { return null; }
      assert Row(rows[key], own[key], cfm, families[key]);
      c := FindCFColumn(rows[key], columnName);
    }

    /** `getCFColumnCount`. */
    method ColumnCount(cf: ColumnFamily) returns (count: int)
      requires cf.Valid()
      ensures count == |cf.Value().cols|
    {
      count := cf.columnorSuper.elemCount;
    }

    method InsertPair(key: CStr, cf: ColumnFamily, count: int, ghost other: set<object>, ghost f: Family) returns (columnAdd: int)
      requires Valid() && Row(cf, other, cfm, f) && other !! parts && this !in other && count == |f.cols|
      modifies this, parts, other
      ensures Valid() && parts == old(parts) + other
      ensures Value() == Insert(old(Value()), key, f) && columnAdd == InsertReturn(old(Value()), key, f)
    {
      hide Row;
      columnAdd := count;
      if key !in rows {
        NewRow(key, cf, other, f);
      } else {
        columnAdd := MergeRow(key, cf, other, f);
      }
      columnCount := columnCount + columnAdd;
    }

    /** The key is new: `putKeyCFPair`. */
    method NewRow(key: CStr, cf: ColumnFamily, ghost other: set<object>, ghost f: Family)
      requires Valid() && key !in rows && Row(cf, other, cfm, f) && other !! parts && this !in other
      modifies `rows, `own, `families, `parts
      ensures Valid() && parts == old(parts) + other && families == old(families)[key := f]
    {
      hide Row, Separate;
      Outside(own, parts, this);
      StillSeparate(own, parts, key, other, other);
      rows := rows[key := cf];
      own := own[key := other];
      families := families[key := f];
      parts := parts + other;
    }

    lemma InParts(key: CStr)
      requires Valid() && key in rows
      ensures own[key] <= parts
    {
    }

    /** The key is there: `insertCF` into its family. */
    method MergeRow(key: CStr, cf: ColumnFamily, ghost other: set<object>, ghost f: Family) returns (columnAdd: int)
      requires Valid() && key in rows && Row(cf, other, cfm, f) && other !! parts && this !in other
      modifies `own, `families, `parts, parts, other
      ensures Valid() && parts == old(parts) + other && families == old(families)[key := MergeFamily(old(families)[key], f)]
      ensures columnAdd == MergeReturn(old(families)[key].cols, f.cols)
    {
      hide Row, MergeFamily, MergeReturn, Separate;
      ghost var was := families[key];
      ghost var now;
      InParts(key);
      Outside(own, parts, this);
      Elsewhere(own, parts, key, other);
      columnAdd, now := MergeRows(rows[key], own[key], was, cf, other, f, cfm);
      Regrow(key, now, other, MergeFamily(was, f));
    }

    /** The row of `key` now consists of `now`. */
    ghost method Regrow(key: CStr, now: set<object>, other: set<object>, f: Family)
      requires this !in parts && own.Keys == rows.Keys && families.Keys == rows.Keys && Separate(own, parts)
      requires key in rows && Row(rows[key], now, cfm, f) && other !! parts && this !in other && now <= other + own[key]
      requires forall k :: k in rows && k != key ==> Row(rows[k], own[k], cfm, families[k])
      modifies `own, `families, `parts
      ensures Valid() && parts == old(parts) + other && families == old(families)[key := f]
    {
      hide Row, Separate;
      Outside(own, parts, this);
      StillSeparate(own, parts, key, now, other);
      assert this !in now && this !in parts + other;
      own, families, parts := own[key := now], families[key := f], parts + other;
      assert Row(rows[key], own[key], cfm, families[key]);
    }
  }
}
