/** The mutable column families and row mutations of db/columnFamily.c and db/rowMutation.c, with
    the (de)serialisers of db/column.c. */
module Families {
  import opened CStrings
  import opened Columns
  import opened ColumnMerge
  import opened RbShape
  import opened RbTree
  import opened ColumnSets
  import opened Codec
  import opened MemTables
  import opened Buffers

  // ---- db/column.c ------------------------------------------------------------------------------

  method SerializeColumn(x: Column, b: Buffer)
    requires b.Valid()
    modifies b, b.buff
    ensures b.Valid() && b.Written() == old(b.Written()) + EncColumn(x)
    ensures b.buff == old(b.buff) || fresh(b.buff)
  {
    Regrouped(b.Written(), EncStr(x.name), EncStr(x.value), EncInt(x.timestamp), [x.del]);
    b.WriteBytes(Terminated(x.name));
    b.WriteBytes(Terminated(x.value));
    b.WriteInt(x.timestamp);
    b.WriteByte(x.del);
  }

  lemma Regrouped(p: seq<byte>, x: seq<byte>, y: seq<byte>, z: seq<byte>, w: seq<byte>)
    ensures p + x + y + z + w == p + (x + (y + (z + w)))
    ensures p + x + y + z == p + (x + (y + z))
  {
  }

  lemma {:induction false} EncColsSnoc(cs: seq<Column>, c: Column)
    ensures EncCols(cs + [c]) == EncCols(cs) + EncColumn(c)
  {
    if cs == [] {
      assert [c][1..] == [];
    } else {
      assert (cs + [c])[1..] == cs[1..] + [c];
      EncColsSnoc(cs[1..], c);
    }
  }

  lemma WrittenSoFar(was: seq<byte>, count: seq<byte>, cols: seq<Column>, i: nat)
    requires i < |cols|
    ensures was + (count + EncCols(cols[..i])) + EncColumn(cols[i]) == was + (count + EncCols(cols[..i + 1]))
  {
    assert cols[..i + 1] == cols[..i] + [cols[i]];
    EncColsSnoc(cols[..i], cols[i]);
  }

  /** `serializeColumnSet`: RB_FOREACH over the tree. */
  method SerializeColumnSet(cs: ColumnSet, b: Buffer)
    requires cs.Valid() && b.Valid()
    modifies b, b.buff
    ensures b.Valid() && b.Written() == old(b.Written()) + EncColumnSet(cs.Cols())
    ensures b.buff == old(b.buff) || fresh(b.buff)
  {
    hide EncColumn, Linked, RedBlack, Sorted;
    ghost var was, s, cols, i := b.Written(), cs.header.Contents(), cs.Cols(), 0;
    b.WriteInt(cs.elemCount);
    var tmp := First(cs);
    ghost var count := EncInt(|cols|);
    while tmp != null
      invariant cs.header.Contents() == s
      invariant i <= |s| && tmp == if i < |s| then s[i] else null
      invariant b.Valid() && (b.buff == old(b.buff) || fresh(b.buff))
      invariant b.Written() == was + (count + EncCols(cols[..i]))
      decreases |s| - i
    {
      tmp := SerializeNext(cs, tmp, b, was, count, i);
      i := i + 1;
    }
    assert cols[..i] == cols;
  }

  /** One round of `serializeColumnSet`. */
  method SerializeNext(cs: ColumnSet, tmp: Node, b: Buffer, ghost was: seq<byte>, ghost count: seq<byte>, ghost i: nat) returns (r: Node?)
    requires cs.Valid() && i < |cs.Cols()| && cs.header.Contents()[i] == tmp
    requires b.Valid() && b.Written() == was + (count + EncCols(cs.Cols()[..i]))
    modifies b, b.buff
    ensures b.Valid() && b.Written() == was + (count + EncCols(cs.Cols()[..i + 1]))
    ensures b.buff == old(b.buff) || fresh(b.buff)
    ensures r == if i + 1 < |cs.Cols()| then cs.header.Contents()[i + 1] else null
  {
    SerializeColumn(tmp.col, b);
    WrittenSoFar(was, count, cs.Cols(), i);
    r := Next(cs, tmp, i);
  }

  /** `deserializeColumn`: a new node, or none when the buffer is too short. */
  method DeserializeColumn(b: Buffer) returns (st: Status, x: Node?)
    requires b.Valid()
    modifies b`pos
    ensures b.Valid() && st == StatusOf(DecColumn(b.Bytes(), old(b.pos)))
    ensures st == Done ==> x != null && fresh(x) && DecColumn(b.Bytes(), old(b.pos)) == Ok(x.col, b.pos)
  {
    hide CString, DecBytes;
    x := null;
    var ok, name, value, timestamp, del;
    st, name := b.ReadBytes();
    if st != Done { return; }
    st, value := b.ReadBytes();
    if st != Done { return; }
    ok, timestamp := b.ReadUnsigned();
    if !ok { return Failed, null; }
    ok, del := b.ReadByte();
    if !ok { return Failed, null; }
    var n, v := CString(name), CString(value);
    if n.None? || v.None? { return Strayed, null; }
    x := new Node(Column(n.value, v.value, timestamp, del));
  }

  /** `deserializeColumnSet` into the set `cs`. */
  method DeserializeColumnSet(cs: ColumnSet, b: Buffer) returns (st: Status)
    requires cs.Valid() && cs.Cols() == [] && b.Valid()
    modifies b`pos, cs, cs.header, cs.header.nodes
    ensures cs.Valid() && b.Valid() && st == StatusOf(DecColumnSet(b.Bytes(), old(b.pos)))
    ensures st == Done ==> DecColumnSet(b.Bytes(), old(b.pos)) == Ok(cs.Cols(), b.pos)
    ensures fresh(cs.header.nodes - old(cs.header.nodes))
  {
    hide DecColumn, Linked, RedBlack, Sorted;
    var ok, count: int := b.ReadInt();
    if !ok { return Failed; }
    ghost var d := DecColumnSet(b.Bytes(), old(b.pos));
    var i := 0;
    st := Done;
    while i < count
      invariant 0 <= i && (i <= count || count < 0) && st == Done
      invariant cs.Valid() && b.Valid() && fresh(cs.header.nodes - old(cs.header.nodes))
      invariant d == DecCols(b.Bytes(), b.pos, count - i, cs.Cols())
    {
      st := ReadInto(cs, b, count - i);
      if st != Done { return; }
      i := i + 1;
    }
  }

  /** One round of `deserializeColumnSet`. */
  method ReadInto(cs: ColumnSet, b: Buffer, ghost left: int) returns (st: Status)
    requires cs.Valid() && b.Valid() && left > 0
    modifies b`pos, cs, cs.header, cs.header.nodes
    ensures cs.Valid() && b.Valid() && b.Bytes() == old(b.Bytes()) && fresh(cs.header.nodes - old(cs.header.nodes))
    ensures st != Done ==> st == StatusOf(DecCols(b.Bytes(), old(b.pos), left, old(cs.Cols())))
    ensures st == Done ==> DecCols(b.Bytes(), old(b.pos), left, old(cs.Cols())) == DecCols(b.Bytes(), b.pos, left - 1, cs.Cols())
  {
    hide DecColumn;
    var tmp;
    st, tmp := DeserializeColumn(b);
    if st == Done {
      var _ := cs.AddColumn(tmp);
    }
  }

  // ---- db/columnFamily.c --------------------------------------------------------------------------

  class ColumnFamily {
    const columnorSuper: ColumnSet
    const cfm: Metadata
    var markedForDelete: uint32
    var localDelete: uint32

    /** `getCF`, which makes no super families. */
    constructor (cfm: Metadata)
      requires cfm.standard
      ensures Valid() && this.cfm == cfm && Value() == Family(0, 0, [])
      ensures fresh(columnorSuper) && fresh(columnorSuper.header) && columnorSuper.header.nodes == {}
    {
      this.cfm := cfm;
      columnorSuper := new ColumnSet();
      markedForDelete, localDelete := 0, 0;
    }

    ghost predicate Valid()
      reads this, columnorSuper, columnorSuper.header, columnorSuper.header.nodes, Nodes(columnorSuper.header.tree)
    {
      cfm.standard && columnorSuper.Valid()
    }

    /** Everything that belongs to the family. */
    ghost function Repr(): set<object>
      reads columnorSuper.header
    {
      {this, columnorSuper, columnorSuper.header} + columnorSuper.header.nodes
    }

    ghost function Value(): Family
      reads this, columnorSuper, columnorSuper.header
    {
      Family(markedForDelete, localDelete, columnorSuper.Cols())
    }
  }

  /** `insertCF`: the number of new columns, or -1 when there are none or the families differ. */
  method InsertCF(cf: ColumnFamily, inserted: ColumnFamily) returns (ret: int)
    requires cf.Valid() && inserted.Valid() && cf != inserted
    requires cf.columnorSuper != inserted.columnorSuper && cf.columnorSuper.header != inserted.columnorSuper.header
    requires cf.columnorSuper.header.nodes !! inserted.columnorSuper.header.nodes
    modifies cf, cf.columnorSuper, cf.columnorSuper.header, cf.columnorSuper.header.nodes
    modifies inserted.columnorSuper, inserted.columnorSuper.header, inserted.columnorSuper.header.nodes
    ensures cf.Valid() && inserted.Valid()
    ensures cf.columnorSuper.header.nodes <= old(cf.columnorSuper.header.nodes + inserted.columnorSuper.header.nodes)
    ensures var same := cf.cfm.keyspace == inserted.cfm.keyspace && cf.cfm.cfName == inserted.cfm.cfName;
            && cf.Value() == (if same then MergeFamily(old(cf.Value()), old(inserted.Value())) else old(cf.Value()))
            && ret == if same then MergeReturn(old(cf.Value().cols), old(inserted.Value().cols)) else -1
  {
    StrCmpZeroIffEqual(cf.cfm.keyspace, inserted.cfm.keyspace);
    StrCmpZeroIffEqual(cf.cfm.cfName, inserted.cfm.cfName);
    if StrCmp(cf.cfm.keyspace, inserted.cfm.keyspace) != 0 || StrCmp(cf.cfm.cfName, inserted.cfm.cfName) != 0 {
      return -1;
    }
    cf.markedForDelete := Max(cf.markedForDelete, inserted.markedForDelete);
    cf.localDelete := Max(cf.localDelete, inserted.localDelete);
    ret := AddColumnSet(cf.columnorSuper, inserted.columnorSuper);
  }

  /** `addCFColumn` to a standard family. */
  method AddCFColumn(cf: ColumnFamily, toInsert: Node) returns (ret: int)
    requires cf.Valid() && toInsert !in cf.columnorSuper.header.nodes
    modifies cf.columnorSuper, cf.columnorSuper.header, cf.columnorSuper.header.nodes, toInsert
    ensures cf.Valid() && ret == PutReturn(old(cf.Value().cols), toInsert.col)
    ensures cf.Value() == old(cf.Value()).(cols := Put(old(cf.Value().cols), toInsert.col))
  {
    ret := cf.columnorSuper.AddColumn(toInsert);
  }

  /** `findCFColumn` in a standard family. */
  method FindCFColumn(cf: ColumnFamily, columnName: CStr) returns (c: Node?)
    requires cf.Valid()
    ensures c == null <==> Lookup(cf.Value().cols, columnName) == None
    ensures c != null ==> Lookup(cf.Value().cols, columnName) == Some(c.col)
  {
    c := cf.columnorSuper.FindCSColumn(columnName);
  }

  /** `serializeCF` of a standard family. */
  method SerializeCF(cf: ColumnFamily, b: Buffer)
    requires cf.Valid() && b.Valid()
    modifies b, b.buff
    ensures b.Valid() && b.Written() == old(b.Written()) + EncFamily(cf.Value())
    ensures b.buff == old(b.buff) || fresh(b.buff)
  {
    hide EncInt, EncColumnSet, Linked, RedBlack, Sorted;
    ghost var f := cf.Value();
    Regrouped(b.Written(), EncInt(f.marked), EncInt(f.local), EncColumnSet(f.cols), []);
    b.WriteInt(cf.markedForDelete);
    b.WriteInt(cf.localDelete);
    SerializeColumnSet(cf.columnorSuper, b);
  }

  /** `deserializeCF` into the fresh family `cf`. */
  method DeserializeCF(b: Buffer, cf: ColumnFamily) returns (st: Status)
    requires cf.Valid() && cf.columnorSuper.Cols() == [] && b.Valid()
    modifies b`pos, cf, cf.columnorSuper, cf.columnorSuper.header, cf.columnorSuper.header.nodes
    ensures cf.Valid() && b.Valid() && st == StatusOf(DecFamily(b.Bytes(), old(b.pos)))
    ensures st == Done ==> DecFamily(b.Bytes(), old(b.pos)) == Ok(cf.Value(), b.pos)
  {
    hide DecColumnSet;
    var ok, marked := b.ReadUnsigned();
    if !ok { return Failed; }
    var local;
    ok, local := b.ReadUnsigned();
    if !ok { return Failed; }
    cf.markedForDelete := marked;
    cf.localDelete := local;
    st := DeserializeColumnSet(cf.columnorSuper, b);
  }

  // ---- db/rowMutation.c ---------------------------------------------------------------------------

  class RowMutation {
    var keyspaceName: CStr
    var key: CStr
    var cfName: CStr
    var cf: ColumnFamily?

    /** `getRM`. */
    constructor ()
    {
      keyspaceName, key, cfName, cf := [], [], [], null;
    }

    ghost predicate Valid()
      reads this, cf
      reads if cf != null then {cf.columnorSuper, cf.columnorSuper.header} else {}
      reads if cf != null then cf.columnorSuper.header.nodes + Nodes(cf.columnorSuper.header.tree) else {}
    {
      cf != null && cf.Valid()
    }

    ghost function Value(): Mutation
      requires cf != null
      reads this, cf, cf.columnorSuper, cf.columnorSuper.header
    {
      Mutation(keyspaceName, key, cfName, cf.Value())
    }
  }

  /** `serializeRM`. */
  method SerializeRM(b: Buffer, rm: RowMutation)
    requires b.Valid() && rm.Valid()
    modifies b, b.buff
    ensures b.Valid() && b.Written() == old(b.Written()) + EncMutation(rm.Value())
  {
    hide EncStr, EncFamily, Linked, RedBlack, Sorted;
    ghost var m := rm.Value();
    Regrouped(b.Written(), EncStr(m.keyspace), EncStr(m.key), EncStr(m.cfName), EncFamily(m.cf));
    WriteNames(rm, b);
    SerializeCF(rm.cf, b);
  }

  method WriteNames(rm: RowMutation, b: Buffer)
    requires b.Valid()
    modifies b, b.buff
    ensures b.Valid() && (b.buff == old(b.buff) || fresh(b.buff))
    ensures b.Written() == old(b.Written()) + EncStr(rm.keyspaceName) + EncStr(rm.key) + EncStr(rm.cfName)
  {
    b.WriteBytes(Terminated(rm.keyspaceName));
    b.WriteBytes(Terminated(rm.key));
    b.WriteBytes(Terminated(rm.cfName));
  }

  /** `deserializeRM`. */
  method DeserializeRM(cat: Catalogue, b: Buffer, rm: RowMutation) returns (st: Status)
    requires b.Valid()
    modifies b`pos, rm
    ensures b.Valid() && st == StatusOf(DecMutation(cat, b.Bytes(), old(b.pos)))
    ensures st == Done ==> rm.Valid() && DecMutation(cat, b.Bytes(), old(b.pos)) == Ok(rm.Value(), b.pos)
  {
    hide CString, DecBytes, DecFamily, Linked, RedBlack, Sorted;
    var ks, k, n;
    st, ks := b.ReadBytes();
    if st != Done { return; }
    st, k := b.ReadBytes();
    if st != Done { return; }
    st, n := b.ReadBytes();
    if st != Done { return; }
    var keyspaceName, key, cfName := CString(ks), CString(k), CString(n);
    if keyspaceName.None? || cfName.None? { return Strayed; }
    var cf;
    st, cf := ReadFamily(cat, b, keyspaceName.value, cfName.value);
    if st == Done {
      if key.None? { return Strayed; }
      rm.key, rm.cfName, rm.keyspaceName, rm.cf := key.value, cfName.value, keyspaceName.value, cf;
    }
  }

  /** `findCFMetaData`, `getCF` and `deserializeCF`. */
  method ReadFamily(cat: Catalogue, b: Buffer, keyspaceName: CStr, cfName: CStr) returns (st: Status, cf: ColumnFamily?)
    requires b.Valid()
    modifies b`pos
    ensures b.Valid()
    ensures var known := (keyspaceName, cfName) in cat && cat[(keyspaceName, cfName)].standard;
            && st == (if known then StatusOf(DecFamily(b.Bytes(), old(b.pos))) else Failed)
            && (st == Done ==> cf != null && fresh(cf) && fresh(cf.columnorSuper) && fresh(cf.columnorSuper.header) && cf.Valid()
                               && DecFamily(b.Bytes(), old(b.pos)) == Ok(cf.Value(), b.pos))
  {
    hide DecFamily, Linked, RedBlack, Sorted;
    cf := null;
    if (keyspaceName, cfName) !in cat || !cat[(keyspaceName, cfName)].standard {
      return Failed, null;
    }
    var made := new ColumnFamily(cat[(keyspaceName, cfName)]);
    st := DeserializeCF(b, made);
    cf := made;
  }
}
