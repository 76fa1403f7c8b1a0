/** The recovery loop of db/commitLog.c over a file and a buffer. */
module Recoverer {
  import opened CStrings
  import opened Columns
  import opened Codec
  import opened Crc32
  import opened Buffers
  import opened Files
  import opened Families
  import opened LogHeaders
  import opened LogHistory
  import opened CommitLogs
  import opened Recovery

  /** The stores, of which recovery knows `insertDM` only. */
  class DataModel {
    ghost var inserted: seq<Mutation>

    constructor ()
      ensures inserted == []
    {
      inserted := [];
    }

    method InsertDM(rm: RowMutation)
      requires rm.Valid()
      modifies this
      ensures inserted == old(inserted) + [rm.Value()]
    {
      inserted := inserted + [rm.Value()];
    }
  }

  /** No block from `p` on sends the readers outside their buffer. */
  ghost predicate Safe(cat: Catalogue, file: seq<byte>, p: nat)
    decreases |file| - p
  {
    match ReadBlock(file, p)
    case Block(data, next) => (forall b: seq<byte> :: Holds(b, 0, data) ==> !DecMutation(cat, b, 0).Wild?) && Safe(cat, file, next)
    case Wrong => false
    case _ => true
  }

  /** Where the loop is, what it has inserted, and how large its buffer is, after the rounds `seen`; none of them failed. */
  ghost function After(cat: Catalogue, hdr: Header, file: seq<byte>, p: nat, seen: seq<seq<byte>>, size: nat): Option<(nat, seq<Mutation>, nat)>
    requires WellFormed(hdr)
    decreases seen
  {
    if seen == [] then Some((p, [], size))
    else
      match ReadBlock(file, p)
      case Block(data, next) => (
        if !Holds(seen[0], 0, data) || |seen[0]| != Reserved(size, |data|) then None
        else
          match (DecRecord(cat, seen[0]), After(cat, hdr, file, next, seen[1..], |seen[0]|))
          case (Ok((m, good), _), Some((q, ms, last))) =>
            Some((q, (if good && Accepted(hdr, FamilyOf(cat, m), p) then [m] else []) + ms, last))
          case _ => None
      )
      case _ => None
  }

  lemma Units<T>(s: seq<T>)
    ensures [] + s == s == s + []
  {
  }

  lemma Associates<T>(a: seq<T>, b: seq<T>, c: seq<T>)
    ensures a + (b + c) == (a + b) + c
  {
  }

  /** A scan is its first rounds and then the rest. */
  lemma {:induction false} ScanAfter(cat: Catalogue, hdr: Header, file: seq<byte>, p: nat, seen: seq<seq<byte>>, size: nat, t: seq<seq<byte>>)
    requires WellFormed(hdr) && After(cat, hdr, file, p, seen, size).Some?
    ensures var (q, ms, last) := After(cat, hdr, file, p, seen, size).value;
            && Scan(cat, hdr, file, p, seen + t) == (Scan(cat, hdr, file, q, t).0, ms + Scan(cat, hdr, file, q, t).1)
            && (Saw(cat, file, q, t, last) ==> Saw(cat, file, p, seen + t, size))
    decreases seen
  {
    hide DecRecord, ReadBlock, Accepted, WellFormed;
    if seen == [] {
      assert [] + t == t;
      Units(Scan(cat, hdr, file, p, t).1);
    } else {
      var next := ReadBlock(file, p).next;
      ScanAfter(cat, hdr, file, next, seen[1..], |seen[0]|, t);
      assert (seen + t)[0] == seen[0] && (seen + t)[1..] == seen[1..] + t;
      var (q, ms, _) := After(cat, hdr, file, next, seen[1..], |seen[0]|).value;
      var (m, good) := DecRecord(cat, seen[0]).value;
      Associates(if good && Accepted(hdr, FamilyOf(cat, m), p) then [m] else [], ms, Scan(cat, hdr, file, q, t).1);
    }
  }

  lemma {:induction false} AfterSnoc(cat: Catalogue, hdr: Header, file: seq<byte>, p: nat, seen: seq<seq<byte>>, size: nat, b: seq<byte>)
    requires WellFormed(hdr) && After(cat, hdr, file, p, seen, size).Some?
    requires var (q, _, last) := After(cat, hdr, file, p, seen, size).value;
             && ReadBlock(file, q).Block? && Holds(b, 0, ReadBlock(file, q).data) && |b| == Reserved(last, |ReadBlock(file, q).data|)
             && DecRecord(cat, b).Ok?
    ensures var (q, ms, _) := After(cat, hdr, file, p, seen, size).value;
            var (m, good) := DecRecord(cat, b).value;
            After(cat, hdr, file, p, seen + [b], size) ==
            Some((ReadBlock(file, q).next, ms + if good && Accepted(hdr, FamilyOf(cat, m), q) then [m] else [], |b|))
    decreases seen
  {
    hide DecRecord, ReadBlock, Accepted, WellFormed;
    if seen == [] {
      assert [] + [b] == [b] && [b][1..] == [];
      var (m, good) := DecRecord(cat, b).value;
      Units(if good && Accepted(hdr, FamilyOf(cat, m), p) then [m] else []);
    } else {
      var next := ReadBlock(file, p).next;
      AfterSnoc(cat, hdr, file, next, seen[1..], |seen[0]|, b);
      assert (seen + [b])[0] == seen[0] && (seen + [b])[1..] == seen[1..] + [b];
      var (q, ms, _) := After(cat, hdr, file, next, seen[1..], |seen[0]|).value;
      var (m0, good0) := DecRecord(cat, seen[0]).value;
      var (m, good) := DecRecord(cat, b).value;
      Associates(if good0 && Accepted(hdr, FamilyOf(cat, m0), p) then [m0] else [], ms,
                 if good && Accepted(hdr, FamilyOf(cat, m), q) then [m] else []);
    }
  }

  /** The mutation and the checksum in the buffer. */
  method ReadRecord(cat: Catalogue, tab: array<Word>, buff: Buffer) returns (st: Status, rm: RowMutation, good: bool)
    requires Generated(tab[..]) && buff.Valid() && buff.pos == 0
    modifies buff`pos
    ensures buff.Valid() && st == StatusOf(DecRecord(cat, buff.Bytes()))
    ensures st == Done ==> rm.Valid() && DecRecord(cat, buff.Bytes()).value == (rm.Value(), good)
  {
    hide Crc, Generated, DecMutation;
    good := false;
    rm := new RowMutation();
    st := DeserializeRM(cat, buff, rm);
    if st != Done { return; }
    var crc := Checksum(tab, buff.buff[..buff.pos]);
    assert buff.buff[..buff.pos] == buff.Bytes()[..buff.pos];
    var ok, crc32 := buff.ReadUnsigned();
    if !ok { st := Failed; }
    good := crc == crc32;
  }

  /** `needReplay`. */
  method NeedReplay(cat: Catalogue, clh: CLHeader, rm: RowMutation, pos: nat) returns (need: bool)
    requires clh.Valid() && rm.Valid() && (rm.keyspaceName, rm.cfName) in cat
    ensures need == Accepted(clh.Value(), FamilyOf(cat, rm.Value()), pos)
  {
    var cfid := cat[(rm.keyspaceName, rm.cfName)].cfID;
    var dirty := clh.TestDirty(cfid);
    need := dirty && clh.posAt[cfid] <= pos;
  }

  /** One round of `recoverFromCurPos`. */
  method Round(cat: Catalogue, tab: array<Word>, fa: FileAbstract, clh: CLHeader, dm: DataModel, buff: Buffer)
    returns (st: Status, ghost b: seq<byte>)
    requires Generated(tab[..]) && clh.Valid() && buff.Valid()
    requires buff.buff != clh.dirtyBit && buff.buff as object != tab && buff.buff as object != clh.posAt
    modifies fa`pos, fa`eof, dm, buff, buff.buff
    ensures buff.Valid() && (buff.buff == old(buff.buff) || fresh(buff.buff))
    ensures var block := ReadBlock(fa.bytes, old(fa.pos));
            if block.Block? then
              && st == StatusOf(DecRecord(cat, b)) && fa.eof == old(fa.eof) && fa.pos == block.next
              && Holds(b, 0, block.data) && |b| == buff.size == Reserved(old(buff.size), |block.data|)
            else
              st == BlockStatus(block) && (block.End? ==> fa.eof) && (block.Empty? ==> fa.eof == old(fa.eof))
    ensures dm.inserted == old(dm.inserted) +
                           if st == Done && DecRecord(cat, b).value.1 && Accepted(clh.Value(), FamilyOf(cat, DecRecord(cat, b).value.0), old(fa.pos))
                           then [DecRecord(cat, b).value.0] else []
  {
    hide DecRecord, DecMutation, ReadBlock, IsDirty, Generated;
    var curPos := fa.pos;
    b := [];
    st := NextBlockInto(fa, buff);
    if st != Done { return; }
    b := buff.Bytes();
    var rm, good;
    st, rm, good := ReadRecord(cat, tab, buff);
    if st != Done { return; }
    if good {
      var need := NeedReplay(cat, clh, rm, curPos);
      if need { dm.InsertDM(rm); }
    }
  }

  /** `reset`, `readFile`, `reset`. */
  method NextBlockInto(fa: FileAbstract, buff: Buffer) returns (st: Status)
    requires buff.Valid()
    modifies fa`pos, fa`eof, buff, buff.buff
    ensures buff.Valid() && (buff.buff == old(buff.buff) || fresh(buff.buff))
    ensures st == BlockStatus(ReadBlock(fa.bytes, old(fa.pos)))
    ensures st == Done ==>
              var block := ReadBlock(fa.bytes, old(fa.pos));
              buff.pos == 0 && Holds(buff.Bytes(), 0, block.data) && fa.pos == block.next && buff.size == Reserved(old(buff.size), |block.data|)
    ensures st != Strayed ==> fa.eof == if ReadBlock(fa.bytes, old(fa.pos)).End? then true else old(fa.eof)
  {
    buff.Reset();
    st := fa.ReadFile(buff);
    if st == Done {
      assert forall i :: 0 <= i < buff.pos ==> buff.Bytes()[i] == buff.Written()[i];
    }
    buff.Reset();
  }

  /** `recoverFromCurPos`. */
  method RecoverFromCurPos(cat: Catalogue, tab: array<Word>, fa: FileAbstract, clh: CLHeader, dm: DataModel)
    returns (end: Ending, ghost seen: seq<seq<byte>>)
    requires Generated(tab[..]) && clh.Valid() && !fa.eof
    modifies fa`pos, fa`eof, dm
    ensures Saw(cat, fa.bytes, old(fa.pos), seen, NEW_SIZE)
    ensures var r := Scan(cat, clh.Value(), fa.bytes, old(fa.pos), seen); end == r.0 && dm.inserted == old(dm.inserted) + r.1
  {
    hide DecRecord, ReadBlock, IsDirty, Generated, Accepted;
    ghost var p0, hdr, was, ms := fa.pos, clh.Value(), dm.inserted, [];
    var buff := new Buffer();
    seen, end := [], Leaves;
    var st := Done;
    while st == Done
      invariant buff.Valid() && fresh(buff) && fresh(buff.buff)
      invariant st == Done ==> !fa.eof
      invariant st == Done ==> After(cat, hdr, fa.bytes, p0, seen, NEW_SIZE) == Some((fa.pos, ms, buff.size)) && dm.inserted == was + ms
      invariant st != Done ==> Saw(cat, fa.bytes, p0, seen, NEW_SIZE) && Scan(cat, hdr, fa.bytes, p0, seen) == (end, ms) && dm.inserted == was + ms
      decreases st == Done, |fa.bytes| - fa.pos
    {
      ghost var p, size := fa.pos, buff.size;
      ghost var b;
      BlockAdvances(fa.bytes, p);
      st, b := Round(cat, tab, fa, clh, dm, buff);
      if st == Done {
        ghost var (m, good) := DecRecord(cat, b).value;
        ghost var new_ := if good && Accepted(hdr, FamilyOf(cat, m), p) then [m] else [];
        AfterSnoc(cat, hdr, fa.bytes, p0, seen, NEW_SIZE, b);
        Associates(was, ms, new_);
        seen, ms := seen + [b], ms + new_;
      } else {
        ghost var last := if ReadBlock(fa.bytes, p).Block? then [b] else [];
        ScanAfter(cat, hdr, fa.bytes, p0, seen, NEW_SIZE, last);
        Units(ms);
        Units(dm.inserted);
        seen := seen + last;
        end := if st == Strayed then Leaves else Returns(if fa.eof then 0 else -1);
      }
    }
  }

  /** `deserializeCLH`; there is no memory for a negative number of positions. */
  method DeserializeCLH(buff: Buffer) returns (st: Status, clh: CLHeader?)
    requires buff.Valid()
    modifies buff`pos
    ensures buff.Valid() && st == StatusOf(DecHeader(buff.Bytes()))
    ensures st == Done ==> clh != null && fresh(clh) && fresh(clh.dirtyBit) && fresh(clh.posAt)
    ensures st == Done ==>
              var h := Header(clh.cfCount, clh.dirtyBit[..], clh.posAt[..]);
              DecHeader(buff.Bytes()) == Ok(h, buff.pos) && (WellFormed(h) ==> clh.Valid())
  {
    hide DecInts, DecInt, DecBytes;
    buff.Reset();
    ghost var b := buff.Bytes();
    clh := null;
    var ok, cfCount: int := buff.ReadInt();
    assert DecInt(b, 0).Ok? || DecInt(b, 0) == Fail by { IntNotWild(b, 0); }
    if !ok { return Failed, null; }
    var dirtyBit, posAt;
    st, dirtyBit := buff.ReadBytes();
    if st != Done { return st, null; }
    if cfCount < 0 { return Failed, null; }
    st, posAt := ReadPositions(buff, cfCount);
    if st != Done { return st, null; }
    clh := new CLHeader.Of(cfCount, dirtyBit, posAt);
  }

  lemma IntNotWild(b: seq<byte>, p: nat)
    ensures DecInt(b, p).Ok? || DecInt(b, p) == Fail
  {
  }

  /** The loop of `deserializeCLH`. */
  method ReadPositions(buff: Buffer, count: nat) returns (st: Status, posAt: seq<int32>)
    requires buff.Valid()
    modifies buff`pos
    ensures buff.Valid() && st == StatusOf(DecInts(buff.Bytes(), old(buff.pos), count))
    ensures st == Done ==> |posAt| == count && DecInts(buff.Bytes(), old(buff.pos), count) == Ok(posAt, buff.pos)
  {
    hide DecInt;
    ghost var b, d := buff.Bytes(), DecInts(buff.Bytes(), buff.pos, count);
    posAt := [];
    BehindNothing(d);
    var i := 0;
    while i < count
      invariant 0 <= i <= count && buff.Valid() && |posAt| == i
      invariant d == Behind(posAt, DecInts(b, buff.pos, count - i))
    {
      IntNotWild(b, buff.pos);
      ghost var before, p := posAt, buff.pos;
      var ok, v := buff.ReadInt();
      if !ok { return Failed, []; }
      posAt := posAt + [v];
      BehindOne(before, v, DecInts(b, buff.pos, count - i - 1));
      i := i + 1;
    }
    assert posAt + [] == posAt;
    st := Done;
  }

  /** A result with the numbers `s` in front. */
  ghost function Behind(s: seq<int32>, d: Dec<seq<int32>>): Dec<seq<int32>> {
    match d
    case Ok(rest, p) => Ok(s + rest, p)
    case Fail => Fail
    case Wild => Wild
  }

  lemma BehindNothing(d: Dec<seq<int32>>)
    ensures Behind([], d) == d
  {
    if d.Ok? { assert [] + d.value == d.value; }
  }

  lemma BehindOne(s: seq<int32>, v: int32, d: Dec<seq<int32>>)
    ensures Behind(s, Behind([v], d)) == Behind(s + [v], d)
  {
    if d.Ok? { assert s + ([v] + d.value) == s + [v] + d.value; }
  }

  /** `auxilary_recover` of a log whose header block is that of `h`. */
  method AuxiliaryRecover(cat: Catalogue, tab: array<Word>, fa: FileAbstract, ghost h: Header, dm: DataModel)
    returns (end: Ending, ghost seen: seq<seq<byte>>)
    requires Generated(tab[..]) && fa.pos == 0 && WellFormed(h)
    requires ReadBlock(fa.bytes, 0).Block? && ReadBlock(fa.bytes, 0).data == EncHeader(h)
    modifies fa`pos, fa`eof, dm
    ensures RecoverSaw(cat, h, fa.bytes, seen)
    ensures var r := Recover(cat, h, fa.bytes, seen); end == r.0 && dm.inserted == old(dm.inserted) + r.1
  {
    hide ReadBlock, EncHeader, Saw, Scan, FirstDirty, Generated;
    seen := [];
    Units(dm.inserted);
    var clh := OpenReader(fa, h);
    var firstDirtyPos := clh.FirstDirtyPos();
    if firstDirtyPos < 0 {
      return Returns(0), [];
    }
    fa.Seek(firstDirtyPos);
    end, seen := RecoverFromCurPos(cat, tab, fa, clh, dm);
  }

  /** `getCommitLogReader`. */
  method OpenReader(fa: FileAbstract, ghost h: Header) returns (clh: CLHeader)
    requires fa.pos == 0 && WellFormed(h) && ReadBlock(fa.bytes, 0).Block? && ReadBlock(fa.bytes, 0).data == EncHeader(h)
    modifies fa`pos, fa`eof
    ensures fresh(clh) && fresh(clh.dirtyBit) && fresh(clh.posAt) && clh.Valid() && clh.Value() == h
  {
    hide ReadBlock, EncHeader;
    var buff := new Buffer();
    var st := NextBlockInto(fa, buff);
    HeaderRoundTrip(buff.Bytes(), h);
    var read;
    st, read := DeserializeCLH(buff);
    clh := read;
  }

  // ---- a good log is safe to read -----------------------------------------------------------------------------

  lemma {:induction false} GoodLogIsSafe(cat: Catalogue, cfCount: nat, log: Log, i: nat, file: seq<byte>)
    requires GoodLog(cat, cfCount, log) && i <= |log.events| && file == LogBytes(log.hdr, Recs(log.events))
    ensures Safe(cat, file, Pos(HeaderSize(cfCount), log.events[..i]))
    decreases |log.events| - i
  {
    hide LogBytes, IsRecord, Reflects, ReadBlock, Pos, MutationOf, DecMutation;
    var h := log.events;
    assert WellFormed(log.hdr) by { UnderValid(log, cfCount); }
    if i == |h| {
      EndOfLog(log.hdr, h);
      assert h[..i] == h;
    } else {
      GoodLogIsSafe(cat, cfCount, log, i + 1, file);
      if h[i].Appended? {
        RecordBlock(cat, log.hdr, h, i);
        RecordIsSafe(cat, h[i].family, h[i].rec, MutationOf(cat, h[i].rec));
      } else {
        PosStep(HeaderSize(cfCount), h, i);
      }
    }
  }

  lemma RecordIsSafe(cat: Catalogue, f: nat, rec: seq<byte>, m: Mutation)
    requires IsRecord(cat, f, rec, m)
    ensures forall b: seq<byte> :: Holds(b, 0, rec) ==> !DecMutation(cat, b, 0).Wild?
  {
    hide EncMutation, DecMutation, GoodMutation;
    forall b: seq<byte> | Holds(b, 0, rec) ensures !DecMutation(cat, b, 0).Wild? {
      HoldsSplit(b, 0, EncMutation(m), EncInt(Crc(EncMutation(m))));
      MutationRoundTrip(cat, b, 0, m);
    }
  }
}
