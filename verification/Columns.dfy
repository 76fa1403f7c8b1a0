/** Columns, the order in which two columns of one name beat each other, and what adding columns to
    a set leaves (db/column.h, db/column.c). A column set is here the sequence of its columns in the
    order of their names. */
module Columns {
  import opened CStrings

  type uint32 = x: int | 0 <= x < 0x1_0000_0000
  type uint8 = x: int | 0 <= x < 256

  datatype Option<+T> = None | Some(value: T)

  datatype Column = Column(name: CStr, value: CStr, timestamp: uint32, del: uint8)

  /** A 32-bit pattern read as a signed int. */
  function ToInt32(x: int): (r: int)
    ensures -0x8000_0000 <= r < 0x8000_0000
  {
    var m := x % 0x1_0000_0000;
    if m < 0x8000_0000 then m else m - 0x1_0000_0000
  }

  /** `compPriority`: the timestamps' unsigned difference is returned as an int. */
  function CompPriority(x: Column, y: Column): int {
    if x.del == y.del then ToInt32(x.timestamp - y.timestamp) else x.del - y.del
  }

  predicate Beats(x: Column, y: Column) {
    CompPriority(x, y) > 0
  }

  /** The greater delete mark decides; on equal ones the comparison of the timestamps is that of the numbers exactly
      when their difference is an int. */
  lemma PriorityIsByTime(x: Column, y: Column)
    ensures x.del != y.del ==> (Beats(x, y) <==> x.del > y.del)
    ensures x.del == y.del ==>
              ((Beats(x, y) <==> x.timestamp > y.timestamp) <==> -0x8000_0000 <= x.timestamp - y.timestamp < 0x8000_0000)
  {
    var d := x.timestamp - y.timestamp;
    if d < 0 {
      assert d % 0x1_0000_0000 == d + 0x1_0000_0000;
    } else {
      assert d % 0x1_0000_0000 == d;
    }
  }

  /** Without a bound on the timestamps, `Beats` may go round in a circle. */
  lemma PriorityMayCycle()
    ensures exists x: Column, y: Column, z: Column ::
              x.name == y.name == z.name && Beats(x, y) && Beats(y, z) && Beats(z, x)
  {
    var x := Column([], [], 0x6000_0000, 0);
    var y := Column([], [], 0, 0);
    var z := Column([], [], 0xB000_0000, 0);
    assert Beats(x, y) && Beats(y, z) && Beats(z, x);
  }

  // ---- one set ------------------------------------------------------------------------------

  ghost predicate SortedCols(cs: seq<Column>) {
    forall i, j :: 0 <= i < j < |cs| ==> StrCmp(cs[i].name, cs[j].name) < 0
  }

  /** The set after `addColumn(cs, c)`. */
  function Put(cs: seq<Column>, c: Column): seq<Column> {
    if cs == [] || StrCmp(c.name, cs[0].name) < 0 then [c] + cs
    else if c.name == cs[0].name then (if Beats(c, cs[0]) then [c] + cs[1..] else cs)
    else [cs[0]] + Put(cs[1..], c)
  }

  /** The column of that name. */
  function Lookup(cs: seq<Column>, name: CStr): Option<Column> {
    if cs == [] then None
    else if cs[0].name == name then Some(cs[0])
    else Lookup(cs[1..], name)
  }

  /** What `addColumn` returns: 1 for a new name, 0 for a column replaced, -1 for one refused. */
  function PutReturn(cs: seq<Column>, c: Column): int {
    match Lookup(cs, c.name)
    case None => 1
    case Some(b) => if Beats(c, b) then 0 else -1
  }

  /** The better of what is there and what arrives; what is there is kept on a tie. */
  function Best(a: Option<Column>, b: Option<Column>): Option<Column> {
    if a.None? then b
    else if b.None? then a
    else if Beats(b.value, a.value) then b else a
  }

  lemma {:induction false} LookupSound(cs: seq<Column>, name: CStr)
    ensures Lookup(cs, name).Some? ==> Lookup(cs, name).value in cs && Lookup(cs, name).value.name == name
    ensures Lookup(cs, name).None? <==> forall c :: c in cs ==> c.name != name
  {
    if cs != [] && cs[0].name != name {
      LookupSound(cs[1..], name);
      assert cs == [cs[0]] + cs[1..];
    }
  }

  lemma {:induction false} LookupAt(cs: seq<Column>, i: nat)
    requires SortedCols(cs) && i < |cs|
    ensures Lookup(cs, cs[i].name) == Some(cs[i])
  {
    if i > 0 {
      StrCmpZeroIffEqual(cs[0].name, cs[i].name);
      assert cs[1..][i - 1] == cs[i];
      LookupAt(cs[1..], i - 1);
    }
  }

  lemma {:induction false} PutLookup(cs: seq<Column>, c: Column, name: CStr)
    requires SortedCols(cs)
    ensures Lookup(Put(cs, c), name) == if name == c.name then Best(Lookup(cs, name), Some(c)) else Lookup(cs, name)
  {
    if cs == [] {
    } else if StrCmp(c.name, cs[0].name) < 0 {
      NotBelow(cs, c.name);
      assert ([c] + cs)[1..] == cs;
    } else if c.name == cs[0].name {
      assert ([c] + cs[1..])[1..] == cs[1..];
    } else {
      assert ([cs[0]] + Put(cs[1..], c))[1..] == Put(cs[1..], c);
      PutLookup(cs[1..], c, name);
    }
  }

  lemma NotBelow(cs: seq<Column>, name: CStr)
    requires SortedCols(cs) && cs != [] && StrCmp(name, cs[0].name) < 0
    ensures Lookup(cs, name) == None
  {
    LookupSound(cs, name);
    forall i | 0 <= i < |cs| ensures cs[i].name != name {
      if i > 0 { StrCmpTransitive(name, cs[0].name, cs[i].name); }
      StrCmpZeroIffEqual(name, name);
    }
  }

  lemma {:induction false} PutSorted(cs: seq<Column>, c: Column)
    requires SortedCols(cs)
    ensures SortedCols(Put(cs, c))
    ensures forall x :: x in Put(cs, c) ==> x == c || x in cs
    ensures |Put(cs, c)| == |cs| + if PutReturn(cs, c) == 1 then 1 else 0
  {
    if cs == [] {
    } else if StrCmp(c.name, cs[0].name) < 0 {
      NotBelow(cs, c.name);
      ConsSorted(c, cs);
    } else if c.name == cs[0].name {
      assert SortedCols(cs[1..]);
    } else {
      PutSorted(cs[1..], c);
      StrCmpZeroIffEqual(c.name, cs[0].name);
      StrCmpAntisymmetric(c.name, cs[0].name);
      var r := Put(cs[1..], c);
      forall x | x in r ensures StrCmp(cs[0].name, x.name) < 0 {
        if x != c {
          var i :| 0 <= i < |cs[1..]| && cs[1..][i] == x;
          assert cs[i + 1] == x;
        }
      }
      assert Put(cs, c) == [cs[0]] + r;
    }
  }

  /** What `addColumn` returns tells what became of the set: 1 that no column had the name, -1 that the set is as it was,
      and 0 that the column of the name gave way. */
  lemma PutReturnTells(cs: seq<Column>, c: Column)
    requires SortedCols(cs)
    ensures PutReturn(cs, c) == 1 <==> forall x :: x in cs ==> x.name != c.name
    ensures PutReturn(cs, c) == -1 <==> Put(cs, c) == cs
    ensures PutReturn(cs, c) == 0 <==> (exists x :: x in cs && x.name == c.name) && Put(cs, c) != cs && c in Put(cs, c)
  {
    PutSorted(cs, c);
    PutLookup(cs, c, c.name);
    LookupSound(cs, c.name);
    LookupSound(Put(cs, c), c.name);
    NotItself(c);
    if PutReturn(cs, c) == -1 {
      forall n: CStr ensures Lookup(Put(cs, c), n) == Lookup(cs, n) {
        PutLookup(cs, c, n);
      }
      SameLookupSameSet(Put(cs, c), cs);
    }
  }

  lemma NotItself(c: Column)
    ensures !Beats(c, c)
  {
  }

  lemma ConsSorted(c: Column, cs: seq<Column>)
    requires SortedCols(cs) && (cs != [] ==> StrCmp(c.name, cs[0].name) < 0)
    ensures SortedCols([c] + cs)
  {
    forall i, j | 0 <= i < j < |[c] + cs| ensures StrCmp(([c] + cs)[i].name, ([c] + cs)[j].name) < 0 {
      if i == 0 && j > 1 { StrCmpTransitive(c.name, cs[0].name, cs[j - 1].name); }
    }
  }

  /** A sorted set is determined by what its names stand for. */
  lemma {:induction false} SameLookupSameSet(a: seq<Column>, b: seq<Column>)
    requires SortedCols(a) && SortedCols(b)
    requires forall n: CStr :: Lookup(a, n) == Lookup(b, n)
    ensures a == b
  {
    assert a != [] ==> Lookup(a, a[0].name) == Some(a[0]);
    assert b != [] ==> Lookup(b, b[0].name) == Some(b[0]);
    if a != [] && b != [] {
      if StrCmp(a[0].name, b[0].name) < 0 {
        NotBelow(b, a[0].name);
      } else if a[0].name != b[0].name {
        StrCmpZeroIffEqual(a[0].name, b[0].name);
        StrCmpAntisymmetric(a[0].name, b[0].name);
        NotBelow(a, b[0].name);
      }
      assert a[0] == b[0];
      forall n: CStr ensures Lookup(a[1..], n) == Lookup(b[1..], n) {
        assert Lookup(a, n) == Lookup(b, n);
        if n == a[0].name {
          HeadOnly(a);
          HeadOnly(b);
        }
      }
      SameLookupSameSet(a[1..], b[1..]);
      assert a == [a[0]] + a[1..] && b == [b[0]] + b[1..];
    }
  }

  lemma HeadOnly(cs: seq<Column>)
    requires SortedCols(cs) && cs != []
    ensures Lookup(cs[1..], cs[0].name) == None
  {
    LookupSound(cs[1..], cs[0].name);
    forall i | 0 <= i < |cs[1..]| ensures cs[1..][i].name != cs[0].name {
      assert cs[1..][i] == cs[i + 1];
      StrCmpZeroIffEqual(cs[0].name, cs[0].name);
    }
  }
}
