/** What the checksum of a record notices (recoverFromCurPos, db/commitLog.c). It is computed over the bytes that
    deserialising consumed, and compared with the four bytes behind them. */
module Damage {
  import opened CStrings
  import opened Columns
  import opened Codec
  import opened Crc32
  import opened CommitLogs
  import opened Recovery

  /** A record in which up to four bytes of the mutation in a row were damaged: either it is not read as a mutation,
      and fails as that does; or it is read as one of the same length, and its checksum is wrong; or it is read as one of
      another length, and only then it may pass. */
  lemma DamageIsNoticed(cat: Catalogue, before: seq<byte>, x: seq<byte>, y: seq<byte>, after: seq<byte>, b: seq<byte>)
    requires |x| == |y| <= 4 && x != y && Holds(b, 0, before + y + after + EncInt(Crc(before + x + after)))
    ensures match DecMutation(cat, b, 0)
            case Fail => DecRecord(cat, b) == Fail
            case Wild => DecRecord(cat, b) == Wild
            case Ok(m, q) => q == |before + y + after| ==> DecRecord(cat, b) == Ok((m, false), q + 4)
    ensures DecRecord(cat, b).Ok? && DecRecord(cat, b).value.1 ==> DecMutation(cat, b, 0).pos != |before + y + after|
  {
    hide Crc, DecMutation;
    var d, c := before + y + after, Crc(before + x + after);
    HoldsSplit(b, 0, d, EncInt(c));
    CrcBound(before + x + after);
    UnsignedRoundTrip(b, |d|, c);
    HoldsSlice(b, 0, d);
    assert b[..|d|] == b[0..|d|];
    BurstDetected(before, x, y, after);
  }

  /** Four bytes are those of a number. */
  lemma FourAreNumber(x: seq<byte>) returns (n: uint32)
    requires |x| == 4
    ensures EncInt(n) == x
  {
    n := FromBytes(x, 0);
    BytesOfNumber(x, 0);
    assert x == [x[0], x[1], x[2], x[3]];
  }

  /** The mutation of one column, named by one character. */
  function OneColumn(keyspace: CStr, key: CStr, cfName: CStr, local: uint32): Mutation {
    Mutation(keyspace, key, cfName, Family(0, local, [Column([97], [], 0, 0)]))
  }

  /** The same without its column. */
  function NoColumn(keyspace: CStr, key: CStr, cfName: CStr, local: uint32): Mutation {
    Mutation(keyspace, key, cfName, Family(0, local, []))
  }

  /** The bytes before the column count, up to the local delete mark. */
  function Names(keyspace: CStr, key: CStr, cfName: CStr): seq<byte> {
    EncStr(keyspace) + EncStr(key) + EncStr(cfName) + EncInt(0)
  }

  lemma MutationBytes(keyspace: CStr, key: CStr, cfName: CStr, local: uint32)
    ensures EncMutation(NoColumn(keyspace, key, cfName, local)) == Names(keyspace, key, cfName) + EncInt(local) + EncInt(0)
    ensures EncMutation(OneColumn(keyspace, key, cfName, local))
         == Names(keyspace, key, cfName) + EncInt(local) + [1] + ([0, 0, 0] + EncColumn(Column([97], [], 0, 0)))
  {
    hide EncStr, EncColumn;
    assert EncInt(1) == [1, 0, 0, 0] && EncInt(0) == [0, 0, 0, 0];
    var c := Column([97], [], 0, 0);
    assert [c][1..] == [] && EncCols([c]) == EncColumn(c) + [];
  }

  /** There is such a record, for any names: when the low byte of its column count is damaged from 1 to 0, it is read
      as a shorter mutation, the column is lost, and the length of the column's name passes for the checksum. */
  lemma DamageMayPass(cat: Catalogue, keyspace: CStr, key: CStr, cfName: CStr) returns (local: uint32, before: seq<byte>, after: seq<byte>)
    requires GoodMutation(cat, NoColumn(keyspace, key, cfName, 0))
    ensures var m, b := OneColumn(keyspace, key, cfName, local), before + [0] + after + EncInt(Crc(before + [1] + after));
            && GoodMutation(cat, m) && EncMutation(m) == before + [1] + after
            && DecRecord(cat, b).Ok? && DecRecord(cat, b).value == (NoColumn(keyspace, key, cfName, local), true)
  {
    hide Crc, EncMutation, DecMutation, Names, EncColumn;
    var x := CrcOnto(Names(keyspace, key, cfName), EncInt(0), 2);
    local := FourAreNumber(x);
    var m0 := NoColumn(keyspace, key, cfName, local);
    before, after := Names(keyspace, key, cfName) + EncInt(local), [0, 0, 0] + EncColumn(Column([97], [], 0, 0));
    MutationBytes(keyspace, key, cfName, local);
    var b, e := before + [0] + after + EncInt(Crc(before + [1] + after)), EncMutation(m0);
    OneIsGood(cat, keyspace, key, cfName, local);
    NameIsCrc();
    assert e == before + [0] + [0, 0, 0];
    assert b == e + EncColumn(Column([97], [], 0, 0)) + EncInt(Crc(before + [1] + after));
    assert Holds(b, 0, e);
    MutationRoundTrip(cat, b, 0, m0);
    assert Holds(b, |e|, EncInt(2));
    UnsignedRoundTrip(b, |e|, 2);
    assert b[..|e|] == e;
  }

  lemma OneIsGood(cat: Catalogue, keyspace: CStr, key: CStr, cfName: CStr, local: uint32)
    requires GoodMutation(cat, NoColumn(keyspace, key, cfName, 0))
    ensures GoodMutation(cat, OneColumn(keyspace, key, cfName, local)) && GoodMutation(cat, NoColumn(keyspace, key, cfName, local))
  {
  }

  /** A column's first four bytes are the length of its name with the terminator. */
  lemma NameIsCrc()
    ensures |EncColumn(Column([97], [], 0, 0))| >= 4 && EncColumn(Column([97], [], 0, 0))[..4] == EncInt(2)
  {
    assert Terminated([97]) == [97, 0];
  }
}
