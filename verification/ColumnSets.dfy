/** The mutable column set of db/column.c: a red-black tree of columns and a count. */
module ColumnSets {
  import opened CStrings
  import opened Columns
  import opened ColumnMerge
  import opened RbShape
  import opened RbTree

  /** The columns that the nodes of a tree carry. */
  ghost function ColsOf(s: seq<Node>): (cs: seq<Column>)
    ensures |cs| == |s| && forall i :: 0 <= i < |s| ==> cs[i] == s[i].col
  {
    seq(|s|, i requires 0 <= i < |s| => s[i].col)
  }

  lemma PutStep(cs: seq<Column>, c: Column)
    requires cs != [] && StrCmp(cs[0].name, c.name) < 0
    ensures Put(cs, c) == [cs[0]] + Put(cs[1..], c)
  {
    StrCmpAntisymmetric(cs[0].name, c.name);
    StrCmpZeroIffEqual(c.name, cs[0].name);
  }

  lemma {:induction false} PutInsert(cs: seq<Column>, c: Column, at: nat)
    requires at <= |cs| && SortedCols(cs[..at] + [c] + cs[at..])
    ensures Put(cs, c) == cs[..at] + [c] + cs[at..]
  {
    var r := cs[..at] + [c] + cs[at..];
    if at == 0 {
      if cs != [] { assert r[1] == cs[0]; }
    } else {
      assert r[0] == cs[0] && r[at] == c;
      PutStep(cs, c);
      var t := cs[1..];
      assert t[..at - 1] + [c] + t[at - 1..] == r[1..];
      PutInsert(t, c, at - 1);
    }
  }

  lemma {:induction false} PutReplace(cs: seq<Column>, c: Column, i: nat)
    requires SortedCols(cs) && i < |cs| && cs[i].name == c.name
    ensures Put(cs, c) == if Beats(c, cs[i]) then cs[i := c] else cs
  {
    if i > 0 {
      var t := cs[1..];
      assert StrCmp(cs[0].name, cs[i].name) < 0;
      PutStep(cs, c);
      PutReplace(t, c, i - 1);
      ConsUpdate(cs, c, i);
    } else {
      StrCmpZeroIffEqual(c.name, c.name);
      assert [c] + cs[1..] == cs[0 := c];
    }
  }

  lemma ConsUpdate<T>(s: seq<T>, x: T, i: nat)
    requires 0 < i < |s|
    ensures [s[0]] + s[1..][i - 1 := x] == s[i := x]
    ensures [s[0]] + s[1..] == s
    ensures s[1..][i - 1] == s[i]
  {
  }

  /** Taking out the column of a name and inserting another of that name puts it in the same place. */
  lemma RemoveThenPut(cs: seq<Column>, c: Column, i: nat)
    requires SortedCols(cs) && i < |cs| && cs[i].name == c.name
    ensures Put(Without(cs, i), c) == cs[i := c]
  {
    var w := Without(cs, i);
    assert w[..i] + [c] + w[i..] == cs[i := c];
    PutInsert(w, c, i);
  }

  lemma SortedColsOf(s: seq<Node>)
    requires Sorted(s)
    ensures SortedCols(ColsOf(s))
  {
  }

  class ColumnSet {
    const header: Head
    var elemCount: int

    constructor ()
      ensures Valid() && Cols() == [] && fresh(header) && header.nodes == {}
    {
      header := new Head();
      elemCount := 0;
    }

    ghost predicate Valid()
      reads this, header, header.nodes, Nodes(header.tree)
    {
      header.Valid() && elemCount == |Cols()|
    }

    /** The columns in the order of their names. */
    ghost function Cols(): seq<Column>
      reads this, header
    {
      ColsOf(header.Contents())
    }

    /** `addColumn`; on -1 the caller keeps `toInsert`. */
    method AddColumn(toInsert: Node) returns (ret: int)
      requires Valid() && toInsert !in header.nodes
      modifies this, header, header.nodes, toInsert
      ensures Valid()
      ensures Cols() == Put(old(Cols()), toInsert.col) && ret == PutReturn(old(Cols()), toInsert.col)
      ensures header.nodes <= old(header.nodes) + {toInsert}
    {
      SortedColsOf(header.Contents());
      PutSorted(Cols(), toInsert.col);
      var tmp := header.RbFind(toInsert.col.name);
      if tmp == null {
        InsertNew(header, toInsert);
        elemCount := elemCount + 1;
        return 1;
      }
      ghost var i := FindPlace(header.Contents(), tmp, toInsert.col);
      if CompPriority(toInsert.col, tmp.col) > 0 {
        ReplaceColumn(header, tmp, toInsert, i);
        return 0;
      }
      return -1;
    }

    /** `findCSColumn`. */
    method FindCSColumn(name: CStr) returns (c: Node?)
      requires Valid()
      ensures c == null <==> Lookup(Cols(), name) == None
      ensures c != null ==> c in header.nodes && Lookup(Cols(), name) == Some(c.col)
    {
      c := header.RbFind(name);
      LookupSound(Cols(), name);
      if c != null {
        ghost var i :| 0 <= i < |header.Contents()| && header.Contents()[i] == c;
        SortedColsOf(header.Contents());
        LookupAt(Cols(), i);
      }
    }
  }

  /** RB_INSERT of a name that is not there. */
  method InsertNew(header: Head, toInsert: Node)
    requires header.Valid() && toInsert !in header.nodes
    requires forall n :: n in header.Contents() ==> n.col.name != toInsert.col.name
    modifies header, header.nodes, toInsert
    ensures header.Valid() && header.nodes == old(header.nodes) + {toInsert}
    ensures ColsOf(header.Contents()) == Put(ColsOf(old(header.Contents())), toInsert.col)
    ensures PutReturn(ColsOf(old(header.Contents())), toInsert.col) == 1
  {
    ghost var cs := ColsOf(header.Contents());
    LookupSound(cs, toInsert.col.name);
    var r;
    ghost var at;
    r, at := header.RbInsert(toInsert);
    assert ColsOf(header.Contents()) == cs[..at] + [toInsert.col] + cs[at..];
    SortedColsOf(header.Contents());
    PutInsert(cs, toInsert.col, at);
  }

  /** The replacement in `addColumn`: the old column out of the tree, the new one in. */
  method ReplaceColumn(header: Head, tmp: Node, toInsert: Node, ghost i: nat)
    requires header.Valid() && tmp in header.nodes && toInsert !in header.nodes && tmp.col.name == toInsert.col.name
    requires i < |header.Contents()| && header.Contents()[i] == tmp
    modifies header, header.nodes, toInsert
    ensures header.Valid() && header.nodes == old(header.nodes) - {tmp} + {toInsert}
    ensures ColsOf(header.Contents()) == ColsOf(old(header.Contents()))[i := toInsert.col]
  {
    ghost var s := header.Contents();
    Replaced(s, i, toInsert.col);
    ghost var k := header.RbRemove(tmp);
    OnePlace(s, i, k);
    InsertNew(header, toInsert);
  }

  lemma Replaced(s: seq<Node>, i: nat, c: Column)
    requires Sorted(s) && i < |s| && s[i].col.name == c.name
    ensures forall n :: n in Without(s, i) ==> n.col.name != c.name
    ensures Put(ColsOf(Without(s, i)), c) == ColsOf(s)[i := c]
  {
    SortedColsOf(s);
    assert ColsOf(Without(s, i)) == Without(ColsOf(s), i);
    GoneName(s, i, c.name);
    RemoveThenPut(ColsOf(s), c, i);
  }

  /** RB_MIN taken out of a tree: the loops that empty a tree do this. */
  method TakeFirst(header: Head, tmp: Node)
    requires header.Valid() && header.Contents() != [] && tmp == header.Contents()[0]
    modifies header, header.nodes
    ensures header.Valid() && header.nodes == old(header.nodes) - {tmp} && tmp in old(header.nodes)
    ensures ColsOf(header.Contents()) == ColsOf(old(header.Contents()))[1..]
  {
    ghost var s := header.Contents();
    InOrderNodes(header.tree, tmp);
    ghost var k := header.RbRemove(tmp);
    OnePlace(s, 0, k);
    assert Without(s, 0) == s[1..];
  }

  /** `addColumnSet`: empties `src` into `target`. */
  method AddColumnSet(target: ColumnSet, src: ColumnSet) returns (ret: int)
    requires target.Valid() && src.Valid() && target != src && target.header != src.header
    requires target.header.nodes !! src.header.nodes
    modifies target, target.header, target.header.nodes, src, src.header, src.header.nodes
    ensures target.Valid() && src.Valid() && src.Cols() == []
    ensures target.Cols() == Merge(old(target.Cols()), old(src.Cols()))
    ensures ret == MergeReturn(old(target.Cols()), old(src.Cols()))
    ensures target.header.nodes <= old(target.header.nodes + src.header.nodes)
  {
    ghost var t0, s0, N := target.Cols(), src.Cols(), target.header.nodes + src.header.nodes;
    var columnAdded, addFlag := 0, false;
    var tmp := First(src);
    while tmp != null
      invariant target.Valid() && src.Valid()
      invariant target.header.nodes !! src.header.nodes && target.header.nodes + src.header.nodes <= N
      invariant tmp == if src.header.Contents() == [] then null else src.header.Contents()[0]
      invariant Merge(target.Cols(), src.Cols()) == Merge(t0, s0)
      invariant columnAdded == |target.Cols()| - |t0| && addFlag == (columnAdded > 0)
      decreases |src.Cols()|
    {
      var ret := MoveFirst(target, src, tmp);
      if ret > 0 {
        addFlag := true;
        columnAdded := columnAdded + ret;
      }
      tmp := First(src);
    }
    ret := if addFlag then columnAdded else -1;
  }

  /** RB_MIN of a column set. */
  method First(cs: ColumnSet) returns (r: Node?)
    requires cs.Valid()
    ensures r == if cs.header.Contents() == [] then null else cs.header.Contents()[0]
  {
    r := cs.header.RbMinMax(-1);
  }

  /** RB_NEXT in a column set, from the node at `i`. */
  method Next(cs: ColumnSet, tmp: Node, ghost i: nat) returns (r: Node?)
    requires cs.Valid() && i < |cs.header.Contents()| && cs.header.Contents()[i] == tmp
    ensures r == if i + 1 < |cs.header.Contents()| then cs.header.Contents()[i + 1] else null
  {
    InOrderNodes(cs.header.tree, tmp);
    ghost var at;
    r, at := cs.header.RbNext(tmp);
    OnePlace(cs.header.Contents(), i, at);
  }

  /** One round of `addColumnSet`. */
  method MoveFirst(target: ColumnSet, src: ColumnSet, tmp: Node) returns (ret: int)
    requires target.Valid() && src.Valid() && target != src && target.header != src.header
    requires target.header.nodes !! src.header.nodes
    requires src.header.Contents() != [] && tmp == src.header.Contents()[0]
    modifies target, target.header, target.header.nodes, src, src.header, src.header.nodes
    ensures target.Valid() && src.Valid() && target.header.nodes !! src.header.nodes
    ensures target.header.nodes + src.header.nodes <= old(target.header.nodes + src.header.nodes)
    ensures src.Cols() == old(src.Cols())[1..]
    ensures target.Cols() == Put(old(target.Cols()), old(src.Cols())[0])
    ensures ret == PutReturn(old(target.Cols()), old(src.Cols())[0])
    ensures |target.Cols()| == |old(target.Cols())| + if ret == 1 then 1 else 0
  {
    hide Put, PutReturn, SortedCols, Linked, RedBlack, Sorted;
    SortedColsOf(target.header.Contents());
    PutSorted(target.Cols(), tmp.col);
    TakeFirst(src.header, tmp);
    src.elemCount := src.elemCount - 1;
    ret := target.AddColumn(tmp);
  }

  lemma FindPlace(s: seq<Node>, n: Node, c: Column) returns (i: nat)
    requires Sorted(s) && n in s && n.col.name == c.name
    ensures i < |s| && s[i] == n
    ensures Put(ColsOf(s), c) == if Beats(c, n.col) then ColsOf(s)[i := c] else ColsOf(s)
    ensures PutReturn(ColsOf(s), c) == if Beats(c, n.col) then 0 else -1
  {
    i :| 0 <= i < |s| && s[i] == n;
    SortedColsOf(s);
    LookupAt(ColsOf(s), i);
    PutReplace(ColsOf(s), c, i);
  }

  lemma GoneName(s: seq<Node>, i: nat, name: CStr)
    requires Sorted(s) && i < |s| && s[i].col.name == name
    ensures forall n :: n in Without(s, i) ==> n.col.name != name
  {
    forall n | n in Without(s, i) ensures n.col.name != name {
      var j :| 0 <= j < |Without(s, i)| && Without(s, i)[j] == n;
      var k := if j < i then j else j + 1;
      assert s[k] == n;
      if n.col.name == name { OnePlace(s, i, k); }
    }
  }
}
