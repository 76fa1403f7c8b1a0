/** The byte formats of serialize/serialize.c, db/column.c, db/columnFamily.c and db/rowMutation.c:
    what the writers append, what the readers make of a buffer at a position, and that reading undoes
    writing whatever surrounds the bytes. */
module Codec {
  import opened CStrings
  import opened Columns
  import opened ColumnMerge

  type int32 = x: int | -0x8000_0000 <= x < 0x8000_0000

  /** What a reader does: return a value and move to a new position; return -1; or read outside what it has,
      where C leaves open what happens. */
  datatype Dec<+T> = Ok(value: T, pos: nat) | Fail | Wild {
    predicate IsFailure() { !Ok? }

    function PropagateFailure<U>(): Dec<U>
      requires !Ok?
    {
      if Fail? then Fail else Wild
    }

    function Extract(): (T, nat)
      requires Ok?
    {
      (value, pos)
    }
  }

  /** How a reader ends. */
  datatype Status = Done | Failed | Strayed

  function StatusOf<T>(d: Dec<T>): Status {
    match d
    case Ok(_, _) => Done
    case Fail => Failed
    case Wild => Strayed
  }

  // ---- integers -----------------------------------------------------------------------------

  /** GET_BYTE: the shift of a negative number keeps the sign. */
  function GetByte(data: int, index: nat): byte
    requires index < 4
  {
    data / [1, 0x100, 0x1_0000, 0x100_0000][index] % 0x100
  }

  /** The low four bytes, the lowest first. */
  function EncInt(data: int): seq<byte> {
    [GetByte(data, 0), GetByte(data, 1), GetByte(data, 2), GetByte(data, 3)]
  }

  function FromBytes(b: seq<byte>, p: nat): uint32
    requires p + 4 <= |b|
  {
    var b0: int, b1: int, b2: int, b3: int := b[p], b[p + 1], b[p + 2], b[p + 3];
    b0 + 0x100 * b1 + 0x1_0000 * b2 + 0x100_0000 * b3
  }

  function DecInt(b: seq<byte>, p: nat): Dec<int32> {
    if |b| < p + 4 then Fail else Ok(ToInt32(FromBytes(b, p)), p + 4)
  }

  function DecUnsigned(b: seq<byte>, p: nat): Dec<uint32> {
    if |b| < p + 4 then Fail else Ok(FromBytes(b, p), p + 4)
  }

  function DecByte(b: seq<byte>, p: nat): Dec<byte> {
    if |b| < p + 1 then Fail else Ok(b[p], p + 1)
  }

  lemma FourBytes(data: int)
    ensures var e := EncInt(data); |e| == 4 && FromBytes(e, 0) == data % 0x1_0000_0000
  {
    var q1, q2, q3 := data / 0x100, data / 0x1_0000, data / 0x100_0000;
    assert q2 == q1 / 0x100 && q3 == q2 / 0x100 && data / 0x1_0000_0000 == q3 / 0x100;
    assert data == 0x100 * q1 + data % 0x100;
    assert q1 == 0x100 * q2 + q1 % 0x100;
    assert q2 == 0x100 * q3 + q2 % 0x100;
  }

  /** Four bytes are those of the number they make up. */
  lemma BytesOfNumber(b: seq<byte>, p: nat)
    requires p + 4 <= |b|
    ensures EncInt(FromBytes(b, p)) == [b[p], b[p + 1], b[p + 2], b[p + 3]]
  {
    var m3: int := b[p + 3];
    var m2 := b[p + 2] + 0x100 * m3;
    var m1 := b[p + 1] + 0x100 * m2;
    var n := b[p] + 0x100 * m1;
    assert n == FromBytes(b, p);
    assert n / 0x100 == m1 && n % 0x100 == b[p];
    assert n / 0x1_0000 == m1 / 0x100 == m2 && m1 % 0x100 == b[p + 1];
    assert n / 0x100_0000 == m2 / 0x100 == m3 && m2 % 0x100 == b[p + 2];
  }

  /** `b` has the bytes `e` at `p`. */
  ghost predicate Holds(b: seq<byte>, p: nat, e: seq<byte>) {
    p + |e| <= |b| && forall i :: 0 <= i < |e| ==> e[i] == b[p + i]
  }

  lemma HoldsSplit(b: seq<byte>, p: nat, e: seq<byte>, f: seq<byte>)
    ensures Holds(b, p, e + f) <==> Holds(b, p, e) && Holds(b, p + |e|, f)
  {
    if Holds(b, p, e + f) {
      assert forall i :: 0 <= i < |e| ==> e[i] == (e + f)[i];
      assert forall i :: 0 <= i < |f| ==> f[i] == (e + f)[|e| + i];
    }
  }

  lemma HoldsSlice(b: seq<byte>, p: nat, e: seq<byte>)
    ensures Holds(b, p, e) <==> p + |e| <= |b| && b[p..p + |e|] == e
  {
    if Holds(b, p, e) {
      assert b[p..p + |e|] == e;
    } else if p + |e| <= |b| {
      var i :| 0 <= i < |e| && e[i] != b[p + i];
      assert b[p..p + |e|][i] != e[i];
    }
  }

  lemma HoldsBytes(b: seq<byte>, p: nat, data: int)
    requires Holds(b, p, EncInt(data))
    ensures FromBytes(b, p) == data % 0x1_0000_0000
  {
    FourBytes(data);
    var e := EncInt(data);
    assert e[0] == b[p + 0] && e[1] == b[p + 1] && e[2] == b[p + 2] && e[3] == b[p + 3];
  }

  lemma WrappedInt(x: int)
    ensures ToInt32(x % 0x1_0000_0000) == x <==> -0x8000_0000 <= x < 0x8000_0000
  {
    var m := x % 0x1_0000_0000;
    assert m % 0x1_0000_0000 == m;
    if 0 <= x < 0x1_0000_0000 {
      assert m == x;
    } else if -0x8000_0000 <= x < 0 {
      assert m == x + 0x1_0000_0000;
    }
  }

  lemma IntRoundTrip(b: seq<byte>, p: nat, data: int32)
    requires Holds(b, p, EncInt(data))
    ensures DecInt(b, p) == Ok(data, p + 4)
  {
    HoldsBytes(b, p, data);
    WrappedInt(data);
  }

  lemma UnsignedRoundTrip(b: seq<byte>, p: nat, data: uint32)
    requires Holds(b, p, EncInt(data))
    ensures DecUnsigned(b, p) == Ok(data, p + 4)
  {
    HoldsBytes(b, p, data);
    WrappedInt(data);
  }

  /** `writeLong` keeps four bytes of eight: `readLong` gives the number back exactly when it fits an int. */
  lemma LongRoundTrip(b: seq<byte>, p: nat, data: int)
    requires Holds(b, p, EncInt(data))
    ensures DecInt(b, p) == Ok(data, p + 4) <==> -0x8000_0000 <= data < 0x8000_0000
  {
    HoldsBytes(b, p, data);
    WrappedInt(data);
  }

  // ---- byte arrays and strings ----------------------------------------------------------------

  /** `writeBytes`: the length, then the bytes. */
  function EncBytes(x: seq<byte>): seq<byte> {
    EncInt(|x|) + x
  }

  /** `readBytes`: the length is believed. No memory is as large as a negative one asks for; a wrong one that is
      positive copies from outside the buffer. */
  function DecBytes(b: seq<byte>, p: nat): Dec<seq<byte>> {
    var (len, q) :- DecInt(b, p);
    if len < 0 then Fail
    else if q + len > |b| then Wild
    else Ok(b[q..q + len], q + len)
  }

  lemma BytesRoundTrip(b: seq<byte>, p: nat, x: seq<byte>)
    requires |x| < 0x8000_0000 && Holds(b, p, EncBytes(x))
    ensures DecBytes(b, p) == Ok(x, p + |EncBytes(x)|)
  {
    HoldsSplit(b, p, EncInt(|x|), x);
    IntRoundTrip(b, p, |x|);
    HoldsSlice(b, p + 4, x);
  }

  /** The C string that begins `b`, when the terminator is there. */
  function CString(b: seq<byte>): Option<CStr> {
    if b == [] then None
    else if b[0] == 0 then Some([])
    else match CString(b[1..])
      case None => None
      case Some(s) => Some([b[0]] + s)
  }

  /** The bytes of a string with its terminator. */
  function Terminated(s: CStr): seq<byte> {
    var b: seq<byte> := s;
    b + [0]
  }

  /** A string is written with its terminator. */
  function EncStr(s: CStr): seq<byte> {
    EncBytes(Terminated(s))
  }

  function DecStr(b: seq<byte>, p: nat): Dec<CStr> {
    var (x, q) :- DecBytes(b, p);
    match CString(x)
    case None => Wild
    case Some(s) => Ok(s, q)
  }

  lemma {:induction false} CStringOf(s: CStr, junk: seq<byte>)
    ensures CString(Terminated(s) + junk) == Some(s)
  {
    if s != [] {
      CStringOf(s[1..], junk);
      assert (Terminated(s) + junk)[1..] == Terminated(s[1..]) + junk;
      assert [s[0]] + s[1..] == s;
    }
  }

  lemma StrThen(b: seq<byte>, p: nat, s: CStr, rest: seq<byte>)
    requires |s| < 0x7FFF_FFFF && Holds(b, p, EncStr(s) + rest)
    ensures DecBytes(b, p) == Ok(Terminated(s), p + |EncStr(s)|) && CString(Terminated(s)) == Some(s)
    ensures DecStr(b, p) == Ok(s, p + |EncStr(s)|) && Holds(b, p + |EncStr(s)|, rest)
  {
    HoldsSplit(b, p, EncStr(s), rest);
    BytesRoundTrip(b, p, Terminated(s));
    CStringOf(s, []);
    assert Terminated(s) + [] == Terminated(s);
  }

  lemma UnsignedThen(b: seq<byte>, p: nat, data: uint32, rest: seq<byte>)
    requires Holds(b, p, EncInt(data) + rest)
    ensures DecUnsigned(b, p) == Ok(data, p + 4) && Holds(b, p + 4, rest)
  {
    HoldsSplit(b, p, EncInt(data), rest);
    UnsignedRoundTrip(b, p, data);
  }

  // ---- columns ----------------------------------------------------------------------------------

  function EncColumn(c: Column): seq<byte> {
    EncStr(c.name) + (EncStr(c.value) + (EncInt(c.timestamp) + [c.del]))
  }

  /** `deserializeColumn`; a name or value without its terminator is read past its end when it is used. */
  function DecColumn(b: seq<byte>, p: nat): Dec<Column> {
    var (name, p1) :- DecBytes(b, p);
    var (value, p2) :- DecBytes(b, p1);
    var (timestamp, p3) :- DecUnsigned(b, p2);
    var (del, p4) :- DecByte(b, p3);
    match (CString(name), CString(value))
    case (Some(n), Some(v)) => Ok(Column(n, v, timestamp, del), p4)
    case _ => Wild
  }

  predicate ShortStrings(c: Column) {
    |c.name| < 0x7FFF_FFFF && |c.value| < 0x7FFF_FFFF
  }

  lemma Lengths(a: seq<byte>, b: seq<byte>, c: seq<byte>, d: seq<byte>)
    ensures |a + (b + (c + d))| == |a| + |b| + |c| + |d|
  {
  }

  lemma ColumnSteps(b: seq<byte>, p: nat, p1: nat, p2: nat, c: Column)
    requires DecBytes(b, p) == Ok(Terminated(c.name), p1) && DecBytes(b, p1) == Ok(Terminated(c.value), p2)
    requires CString(Terminated(c.name)) == Some(c.name) && CString(Terminated(c.value)) == Some(c.value)
    requires DecUnsigned(b, p2) == Ok(c.timestamp, p2 + 4) && DecByte(b, p2 + 4) == Ok(c.del, p2 + 5)
    ensures DecColumn(b, p) == Ok(c, p2 + 5)
  {
  }

  lemma ColumnRoundTrip(b: seq<byte>, p: nat, c: Column)
    requires ShortStrings(c) && Holds(b, p, EncColumn(c))
    ensures DecColumn(b, p) == Ok(c, p + |EncColumn(c)|)
  {
    var e1, e2, e3, e4 := EncStr(c.name), EncStr(c.value), EncInt(c.timestamp), [c.del];
    StrThen(b, p, c.name, e2 + (e3 + e4));
    var p1 := p + |e1|;
    StrThen(b, p1, c.value, e3 + e4);
    var p2 := p1 + |e2|;
    UnsignedThen(b, p2, c.timestamp, e4);
    assert e4[0] == b[p2 + 4 + 0];
    ColumnSteps(b, p, p1, p2, c);
    Lengths(e1, e2, e3, e4);
  }

  // ---- column sets ------------------------------------------------------------------------------

  function EncCols(cs: seq<Column>): seq<byte> {
    if cs == [] then [] else EncColumn(cs[0]) + EncCols(cs[1..])
  }

  /** `serializeColumnSet`: the count, then the columns in the order of their names. */
  function EncColumnSet(cs: seq<Column>): seq<byte> {
    EncInt(|cs|) + EncCols(cs)
  }

  /** The loop of `deserializeColumnSet`: each column read is added to the set. */
  function DecCols(b: seq<byte>, p: nat, count: int, acc: seq<Column>): Dec<seq<Column>>
    decreases count
  {
    if count <= 0 then Ok(acc, p)
    else
      var (c, q) :- DecColumn(b, p);
      DecCols(b, q, count - 1, Put(acc, c))
  }

  function DecColumnSet(b: seq<byte>, p: nat): Dec<seq<Column>> {
    var (count, q) :- DecInt(b, p);
    DecCols(b, q, count, [])
  }

  lemma {:induction false} PutLast(cs: seq<Column>, c: Column)
    requires SortedCols(cs + [c])
    ensures Put(cs, c) == cs + [c]
  {
    if cs != [] {
      assert (cs + [c])[0] == cs[0] && (cs + [c])[|cs|] == c;
      StrCmpAntisymmetric(cs[0].name, c.name);
      StrCmpZeroIffEqual(c.name, c.name);
      assert cs[1..] + [c] == (cs + [c])[1..];
      PutLast(cs[1..], c);
    }
  }

  lemma NextColumn(acc: seq<Column>, cs: seq<Column>)
    requires SortedCols(acc + cs) && cs != []
    ensures Put(acc, cs[0]) == acc + [cs[0]] && acc + [cs[0]] + cs[1..] == acc + cs
  {
    assert (acc + cs)[..|acc| + 1] == acc + [cs[0]];
    PutLast(acc, cs[0]);
  }

  lemma {:induction false} ColsRoundTrip(b: seq<byte>, p: nat, acc: seq<Column>, cs: seq<Column>)
    requires SortedCols(acc + cs) && (forall c :: c in cs ==> ShortStrings(c)) && Holds(b, p, EncCols(cs))
    ensures DecCols(b, p, |cs|, acc) == Ok(acc + cs, p + |EncCols(cs)|)
    decreases cs
  {
    if cs == [] {
      assert acc + cs == acc;
    } else {
      HoldsSplit(b, p, EncColumn(cs[0]), EncCols(cs[1..]));
      ColumnRoundTrip(b, p, cs[0]);
      NextColumn(acc, cs);
      ColsRoundTrip(b, p + |EncColumn(cs[0])|, acc + [cs[0]], cs[1..]);
    }
  }

  predicate ShortSet(cs: seq<Column>) {
    |cs| < 0x8000_0000 && forall c :: c in cs ==> ShortStrings(c)
  }

  lemma ColumnSetRoundTrip(b: seq<byte>, p: nat, cs: seq<Column>)
    requires SortedCols(cs) && ShortSet(cs) && Holds(b, p, EncColumnSet(cs))
    ensures DecColumnSet(b, p) == Ok(cs, p + |EncColumnSet(cs)|)
  {
    HoldsSplit(b, p, EncInt(|cs|), EncCols(cs));
    IntRoundTrip(b, p, |cs|);
    ColsRoundTrip(b, p + 4, [], cs);
    assert [] + cs == cs;
  }

  // ---- families and mutations ---------------------------------------------------------------------

  datatype Family = Family(marked: uint32, local: uint32, cols: seq<Column>)

  ghost predicate GoodFamily(f: Family) {
    SortedCols(f.cols) && ShortSet(f.cols)
  }

  function EncFamily(f: Family): seq<byte> {
    EncInt(f.marked) + (EncInt(f.local) + EncColumnSet(f.cols))
  }

  function DecFamily(b: seq<byte>, p: nat): Dec<Family> {
    var (marked, p1) :- DecUnsigned(b, p);
    var (local, p2) :- DecUnsigned(b, p1);
    var (cols, p3) :- DecColumnSet(b, p2);
    Ok(Family(marked, local, cols), p3)
  }

  lemma FamilyRoundTrip(b: seq<byte>, p: nat, f: Family)
    requires GoodFamily(f) && Holds(b, p, EncFamily(f))
    ensures DecFamily(b, p) == Ok(f, p + |EncFamily(f)|)
  {
    UnsignedThen(b, p, f.marked, EncInt(f.local) + EncColumnSet(f.cols));
    UnsignedThen(b, p + 4, f.local, EncColumnSet(f.cols));
    ColumnSetRoundTrip(b, p + 8, f.cols);
  }

  /** What the catalogue knows of a family; only standard families can hold columns. */
  datatype Metadata = Metadata(keyspace: CStr, cfName: CStr, cfID: nat, standard: bool)

  type Catalogue = map<(CStr, CStr), Metadata>

  datatype Mutation = Mutation(keyspace: CStr, key: CStr, cfName: CStr, cf: Family)

  function EncMutation(m: Mutation): seq<byte> {
    EncStr(m.keyspace) + (EncStr(m.key) + (EncStr(m.cfName) + EncFamily(m.cf)))
  }

  /** `deserializeRM`: reads three strings, of which it looks up two, and fails on a family that the catalogue
      does not have. */
  function DecMutation(cat: Catalogue, b: seq<byte>, p: nat): (r: Dec<Mutation>)
    ensures r.Ok? ==> (r.value.keyspace, r.value.cfName) in cat
  {
    var (ks, p1) :- DecBytes(b, p);
    var (k, p2) :- DecBytes(b, p1);
    var (n, p3) :- DecBytes(b, p2);
    match (CString(ks), CString(n))
    case (Some(keyspace), Some(cfName)) =>
      if (keyspace, cfName) !in cat || !cat[(keyspace, cfName)].standard then Fail
      else (
        var (cf, p4) :- DecFamily(b, p3);
        match CString(k)
        case None => Wild
        case Some(key) => Ok(Mutation(keyspace, key, cfName, cf), p4)
      )
    case _ => Wild
  }

  /** A mutation that the store accepts: its family is known, its lengths fit an int. */
  ghost predicate GoodMutation(cat: Catalogue, m: Mutation) {
    && |m.keyspace| < 0x7FFF_FFFF && |m.key| < 0x7FFF_FFFF && |m.cfName| < 0x7FFF_FFFF
    && (m.keyspace, m.cfName) in cat && cat[(m.keyspace, m.cfName)].standard
    && GoodFamily(m.cf)
  }

  lemma ThreeStrings(b: seq<byte>, p: nat, x: CStr, y: CStr, z: CStr, rest: seq<byte>, e: seq<byte>)
    requires |x| < 0x7FFF_FFFF && |y| < 0x7FFF_FFFF && |z| < 0x7FFF_FFFF
    requires e == EncStr(x) + (EncStr(y) + (EncStr(z) + rest)) && Holds(b, p, e)
    ensures var p1, p2 := p + |EncStr(x)|, p + |EncStr(x)| + |EncStr(y)|;
            && DecBytes(b, p) == Ok(Terminated(x), p1) && DecBytes(b, p1) == Ok(Terminated(y), p2)
            && DecBytes(b, p2) == Ok(Terminated(z), p2 + |EncStr(z)|) && Holds(b, p2 + |EncStr(z)|, rest)
  {
    StrThen(b, p, x, EncStr(y) + (EncStr(z) + rest));
    StrThen(b, p + |EncStr(x)|, y, EncStr(z) + rest);
    StrThen(b, p + |EncStr(x)| + |EncStr(y)|, z, rest);
  }

  lemma MutationSteps(cat: Catalogue, b: seq<byte>, p: nat, p1: nat, p2: nat, p3: nat, m: Mutation, e: nat)
    requires DecBytes(b, p) == Ok(Terminated(m.keyspace), p1) && DecBytes(b, p1) == Ok(Terminated(m.key), p2)
    requires DecBytes(b, p2) == Ok(Terminated(m.cfName), p3)
    requires (m.keyspace, m.cfName) in cat && cat[(m.keyspace, m.cfName)].standard
    requires GoodFamily(m.cf) && Holds(b, p3, EncFamily(m.cf)) && e == p3 + |EncFamily(m.cf)|
    ensures DecMutation(cat, b, p) == Ok(m, e)
  {
    hide DecBytes, DecFamily, EncFamily, CString, Terminated;
    FamilyRoundTrip(b, p3, m.cf);
    StrTerminated(m.keyspace);
    StrTerminated(m.key);
    StrTerminated(m.cfName);
  }

  lemma StrTerminated(s: CStr)
    ensures CString(Terminated(s)) == Some(s)
  {
    CStringOf(s, []);
    assert Terminated(s) + [] == Terminated(s);
  }

  /** Reading a written mutation gives it back and stops where its bytes end, whatever is around them. */
  lemma MutationRoundTrip(cat: Catalogue, b: seq<byte>, p: nat, m: Mutation)
    requires GoodMutation(cat, m) && Holds(b, p, EncMutation(m))
    ensures DecMutation(cat, b, p) == Ok(m, p + |EncMutation(m)|)
  {
    var rest := EncFamily(m.cf);
    Lengths(EncStr(m.keyspace), EncStr(m.key), EncStr(m.cfName), rest);
    ThreeStrings(b, p, m.keyspace, m.key, m.cfName, rest, EncMutation(m));
    var p1 := p + |EncStr(m.keyspace)|;
    var p2 := p1 + |EncStr(m.key)|;
    var p3 := p2 + |EncStr(m.cfName)|;
    MutationSteps(cat, b, p, p1, p2, p3, m, p + |EncMutation(m)|);
  }
}
