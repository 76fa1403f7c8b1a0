/** Replaying a commit log (recoverFromCurPos and auxilary_recover, db/commitLog.c). */
module Recovery {
  import opened CStrings
  import opened Columns
  import opened Codec
  import opened Crc32
  import opened Files
  import opened LogHeaders
  import opened LogHistory
  import opened CommitLogs

  /** One block in the buffer: the mutation, and whether its checksum is right. */
  function DecRecord(cat: Catalogue, b: seq<byte>): (r: Dec<(Mutation, bool)>)
    ensures r.Ok? ==> (r.value.0.keyspace, r.value.0.cfName) in cat
  {
    var (m, q) :- DecMutation(cat, b, 0);
    var (crc32, end) :- DecUnsigned(b, q);
    Ok((m, Crc(b[..q]) == crc32), end)
  }

  /** `getRMCFID`. */
  function FamilyOf(cat: Catalogue, m: Mutation): nat
    requires (m.keyspace, m.cfName) in cat
  {
    cat[(m.keyspace, m.cfName)].cfID
  }

  /** How recovery ends: it returns; or it reads or writes outside its buffer, and C leaves open what follows. */
  datatype Ending = Returns(ret: int) | Leaves

  /** The loop of `recoverFromCurPos` from the position `p`: how it ends and the mutations it inserts before.
      `seen` are the contents of the buffer in each round: a block and, behind it, what was there before. */
  function Scan(cat: Catalogue, hdr: Header, file: seq<byte>, p: nat, seen: seq<seq<byte>>): (Ending, seq<Mutation>)
    requires WellFormed(hdr)
    decreases seen
  {
    match ReadBlock(file, p)
    case End => (Returns(0), [])
    case Empty => (Returns(-1), [])
    case Wrong => (Leaves, [])
    case Block(_, next) =>
      if seen == [] then (Returns(-1), [])
      else
        match DecRecord(cat, seen[0])
        case Fail => (Returns(-1), [])
        case Wild => (Leaves, [])
        case Ok((m, good), _) =>
          var rest := Scan(cat, hdr, file, next, seen[1..]);
          (rest.0, (if good && Accepted(hdr, FamilyOf(cat, m), p) then [m] else []) + rest.1)
  }

  /** Each round found its block in the buffer, grown for it from `size` bytes if need be, and there was a round for
      each block until one was not read. */
  ghost predicate Saw(cat: Catalogue, file: seq<byte>, p: nat, seen: seq<seq<byte>>, size: nat)
    decreases seen
  {
    match ReadBlock(file, p)
    case Block(data, next) =>
      && seen != [] && Holds(seen[0], 0, data) && |seen[0]| == Reserved(size, |data|)
      && (DecRecord(cat, seen[0]).Ok? ==> Saw(cat, file, next, seen[1..], |seen[0]|))
    case _ => seen == []
  }

  /** The size of a new buffer. */
  const NEW_SIZE: nat := 64

  // ---- records --------------------------------------------------------------------------------------

  /** The record that is written for the mutation `m` of family `f`. */
  ghost predicate IsRecord(cat: Catalogue, f: nat, rec: seq<byte>, m: Mutation) {
    GoodMutation(cat, m) && FamilyOf(cat, m) == f && rec == Seal(EncMutation(m)) && Fits(rec)
  }

  /** A record is read back whole, with its checksum right, whatever the buffer holds behind it. */
  lemma RecordRoundTrip(cat: Catalogue, f: nat, rec: seq<byte>, m: Mutation, b: seq<byte>)
    requires IsRecord(cat, f, rec, m) && Holds(b, 0, rec)
    ensures DecRecord(cat, b) == Ok((m, true), |rec|)
  {
    hide Crc, EncMutation, DecMutation, GoodMutation, FamilyOf, GetByte, FromBytes;
    var e := EncMutation(m);
    HoldsSplit(b, 0, e, EncInt(Crc(e)));
    MutationRoundTrip(cat, b, 0, m);
    CrcBound(e);
    UnsignedRoundTrip(b, |e|, Crc(e));
    HoldsSlice(b, 0, e);
    assert b[..|e|] == b[0..|e|];
  }

  /** The mutation that a record is read as. */
  function MutationOf(cat: Catalogue, rec: seq<byte>): Mutation {
    match DecRecord(cat, rec)
    case Ok((m, _), _) => m
    case _ => Mutation([], [], [], Family(0, 0, []))
  }

  /** The mutations of the records in a history. */
  function Mutations(cat: Catalogue, h: seq<Event>): seq<Mutation> {
    if h == [] then []
    else (if h[0].Appended? then [MutationOf(cat, h[0].rec)] else []) + Mutations(cat, h[1..])
  }

  /** Every record of the history is that of some mutation of its family. */
  ghost predicate GoodRecords(cat: Catalogue, cfCount: nat, h: seq<Event>) {
    forall i :: 0 <= i < |h| ==> h[i].family < cfCount && (h[i].Appended? ==> IsRecord(cat, h[i].family, h[i].rec, MutationOf(cat, h[i].rec)))
  }

  // ---- scanning the records ---------------------------------------------------------------------------

  lemma EndOfLog(hdr: Header, h: seq<Event>)
    requires WellFormed(hdr)
    ensures ReadBlock(LogBytes(hdr, Recs(h)), Pos(HeaderSize(hdr.cfCount), h)) == Files.End
  {
    EndIsLength(Log(hdr, h));
  }

  lemma NextBlock(hdr: Header, h: seq<Event>, i: nat)
    requires WellFormed(hdr) && i < |h| && h[i].Appended? && GoodBlock(h[i].rec)
    ensures ReadBlock(LogBytes(hdr, Recs(h)), Pos(HeaderSize(hdr.cfCount), h[..i])) ==
            Block(h[i].rec, Pos(HeaderSize(hdr.cfCount), h[..i + 1]))
  {
    RecordAt(hdr, h, i);
    PosStep(HeaderSize(hdr.cfCount), h, i);
    ReadFrame(LogBytes(hdr, Recs(h)), Pos(HeaderSize(hdr.cfCount), h[..i]), h[i].rec);
  }

  /** One round of the scan. */
  lemma ScanOne(cat: Catalogue, hdr: Header, file: seq<byte>, p: nat, seen: seq<seq<byte>>, size: nat, f: nat, rec: seq<byte>, next: nat)
    requires WellFormed(hdr) && ReadBlock(file, p) == Block(rec, next) && Saw(cat, file, p, seen, size)
    requires IsRecord(cat, f, rec, MutationOf(cat, rec))
    ensures seen != [] && Saw(cat, file, next, seen[1..], |seen[0]|)
    ensures var rest := Scan(cat, hdr, file, next, seen[1..]);
            Scan(cat, hdr, file, p, seen) == (rest.0, (if Accepted(hdr, f, p) then [MutationOf(cat, rec)] else []) + rest.1)
  {
    hide DecRecord, GoodMutation, Seal, ReadBlock, Accepted;
    RecordRoundTrip(cat, f, rec, MutationOf(cat, rec), seen[0]);
  }

  /** From a block boundary on, the scan meets every record whole and inserts, in the order of the file,
      exactly those that no sync of their family follows. */
  lemma {:induction false} ScanFromBoundary(cat: Catalogue, hdr: Header, h: seq<Event>, i: nat, file: seq<byte>, seen: seq<seq<byte>>, size: nat)
    requires WellFormed(hdr) && file == LogBytes(hdr, Recs(h)) && i <= |h|
    requires Reflects(HeaderSize(hdr.cfCount), hdr, h) && GoodRecords(cat, hdr.cfCount, h)
    requires Saw(cat, file, Pos(HeaderSize(hdr.cfCount), h[..i]), seen, size)
    ensures Scan(cat, hdr, file, Pos(HeaderSize(hdr.cfCount), h[..i]), seen) == (Returns(0), Mutations(cat, Kept(h[i..])))
    decreases |h| - i
  {
    hide LogBytes, Reflects, Accepted, IsRecord, ReadBlock, Frames, MutationOf, HeaderSize, Pos, Saw, Scan, Recs, Kept, Mutations;
    if i == |h| {
      ScanEnd(cat, hdr, h, seen);
      assert h[..i] == h;
      NothingKept(cat, h);
    } else {
      NextKept(cat, h, i);
      if h[i].Appended? {
        RecordBlock(cat, hdr, h, i);
        var p := Pos(HeaderSize(hdr.cfCount), h[..i]);
        ScanOne(cat, hdr, file, p, seen, size, h[i].family, h[i].rec, Pos(HeaderSize(hdr.cfCount), h[..i + 1]));
        AcceptedIffNotSynced(HeaderSize(hdr.cfCount), hdr, h, i);
        ScanFromBoundary(cat, hdr, h, i + 1, file, seen[1..], |seen[0]|);
      } else {
        PosStep(HeaderSize(hdr.cfCount), h, i);
        ScanFromBoundary(cat, hdr, h, i + 1, file, seen, size);
      }
    }
  }

  lemma ScanEnd(cat: Catalogue, hdr: Header, h: seq<Event>, seen: seq<seq<byte>>)
    requires WellFormed(hdr)
    ensures Scan(cat, hdr, LogBytes(hdr, Recs(h)), Pos(HeaderSize(hdr.cfCount), h), seen) == (Returns(0), [])
  {
    hide LogBytes, Pos, ReadBlock;
    EndOfLog(hdr, h);
  }

  lemma NothingKept(cat: Catalogue, h: seq<Event>)
    ensures Mutations(cat, Kept(h[|h|..])) == []
  {
  }

  lemma NextKept(cat: Catalogue, h: seq<Event>, i: nat)
    requires i < |h|
    ensures Mutations(cat, Kept(h[i..])) ==
            (if h[i].Appended? && Synced(h[i].family) !in h[i + 1..] then [MutationOf(cat, h[i].rec)] else []) +
            Mutations(cat, Kept(h[i + 1..]))
    ensures h[i].Synced? ==> Mutations(cat, Kept(h[i..])) == Mutations(cat, Kept(h[i + 1..]))
  {
    hide MutationOf;
    assert h[i..][1..] == h[i + 1..];
    if h[i].Appended? && Synced(h[i].family) !in h[i + 1..] {
      assert ([h[i]] + Kept(h[i + 1..]))[1..] == Kept(h[i + 1..]);
    } else {
      assert Kept(h[i..]) == Kept(h[i + 1..]);
    }
  }

  lemma RecordBlock(cat: Catalogue, hdr: Header, h: seq<Event>, i: nat)
    requires WellFormed(hdr) && GoodRecords(cat, hdr.cfCount, h) && i < |h| && h[i].Appended?
    ensures ReadBlock(LogBytes(hdr, Recs(h)), Pos(HeaderSize(hdr.cfCount), h[..i])) ==
            Block(h[i].rec, Pos(HeaderSize(hdr.cfCount), h[..i + 1]))
  {
    hide ReadBlock, LogBytes, Pos, MutationOf, GoodMutation;
    NextBlock(hdr, h, i);
  }

  // ---- where the scan starts ------------------------------------------------------------------------------

  /** `auxilary_recover` on a log with header `hdr`. */
  function Recover(cat: Catalogue, hdr: Header, file: seq<byte>, seen: seq<seq<byte>>): (Ending, seq<Mutation>)
    requires WellFormed(hdr)
  {
    match FirstDirty(hdr)
    case None => (Returns(0), [])
    case Some(p) => if p < 0 then (Returns(0), []) else Scan(cat, hdr, file, p, seen)
  }

  /** `seen` is what the scan that `auxilary_recover` starts found in its buffer. */
  ghost predicate RecoverSaw(cat: Catalogue, hdr: Header, file: seq<byte>, seen: seq<seq<byte>>)
    requires WellFormed(hdr)
  {
    FirstDirty(hdr).Some? && FirstDirty(hdr).value >= 0 ==> Saw(cat, file, FirstDirty(hdr).value, seen, NEW_SIZE)
  }

  ghost predicate GoodLog(cat: Catalogue, cfCount: nat, log: Log) {
    ValidLog(log, cfCount) && HeaderSize(cfCount) <= COMMITLOGMAXSZ && GoodRecords(cat, cfCount, log.events)
  }

  /** Records before the first dirty position are not accepted. */
  lemma NotBefore(log: Log, cfCount: nat, i: nat, j: nat)
    requires ValidLog(log, cfCount) && j < i <= |log.events| && log.events[j].Appended? && log.events[j].family < cfCount
    requires FirstDirty(log.hdr) == Some(Pos(HeaderSize(cfCount), log.events[..i]))
    ensures Synced(log.events[j].family) in log.events[j + 1..]
  {
    hide Reflects, FirstDirty, Pos, Accepted, WellFormed;
    HeaderDecides(log, cfCount, j);
    PosBefore(HeaderSize(cfCount), log.events, j, i);
  }

  lemma PosBefore(H: nat, h: seq<Event>, j: nat, i: nat)
    requires j < i <= |h| && h[j].Appended?
    ensures Pos(H, h[..j]) < Pos(H, h[..i])
  {
    PosStep(H, h, j);
    PosMonotone(H, h, j + 1, i);
  }

  lemma {:induction false} KeptFrom(h: seq<Event>, i: nat)
    requires i <= |h|
    requires forall j :: 0 <= j < i && h[j].Appended? ==> Synced(h[j].family) in h[j + 1..]
    ensures Kept(h) == Kept(h[i..])
    decreases i
  {
    if i == 0 {
      assert h[0..] == h;
    } else {
      assert h[1..][i - 1..] == h[i..];
      forall j | 0 <= j < i - 1 && h[1..][j].Appended? ensures Synced(h[1..][j].family) in h[1..][j + 1..] {
        assert h[1..][j] == h[j + 1] && h[1..][j + 1..] == h[j + 2..];
      }
      KeptFrom(h[1..], i - 1);
    }
  }

  /** When the first dirty position is behind the header, exactly the records that no sync followed are inserted. */
  lemma RecoverFromPosition(cat: Catalogue, cfCount: nat, log: Log, file: seq<byte>, seen: seq<seq<byte>>)
    requires GoodLog(cat, cfCount, log) && file == LogBytes(log.hdr, Recs(log.events)) && RecoverSaw(cat, log.hdr, file, seen)
    requires FirstDirty(log.hdr).Some? && FirstDirty(log.hdr).value != 0
    ensures Recover(cat, log.hdr, file, seen) == (Returns(0), Mutations(cat, Kept(log.events)))
  {
    hide LogBytes, Scan, Mutations, Kept, IsRecord, MutationOf, Pos, Accepted, Saw;
    var h := log.events;
    var i := FirstDirtyAt(log, cfCount);
    forall j | 0 <= j < i && h[j].Appended? ensures Synced(h[j].family) in h[j + 1..] {
      NotBefore(log, cfCount, i, j);
    }
    KeptFrom(h, i);
    ScanFromBoundary(cat, log.hdr, h, i, file, seen, NEW_SIZE);
  }

  lemma FirstDirtyAt(log: Log, cfCount: nat) returns (i: nat)
    requires ValidLog(log, cfCount) && FirstDirty(log.hdr).Some? && FirstDirty(log.hdr).value != 0
    ensures i <= |log.events| && FirstDirty(log.hdr).value == Pos(HeaderSize(cfCount), log.events[..i])
  {
    var g := LeastHeld(Flags(log.hdr), log.hdr.posAt, cfCount);
    LastSyncBoundary(HeaderSize(cfCount), log.events, g);
    i :| 0 <= i <= |log.events| && FirstDirty(log.hdr).value == Pos(HeaderSize(cfCount), log.events[..i]);
  }

  /** When nothing is dirty, no record needs to be inserted. */
  lemma NothingToRecover(cat: Catalogue, cfCount: nat, log: Log)
    requires GoodLog(cat, cfCount, log) && FirstDirty(log.hdr).None?
    ensures Kept(log.events) == []
  {
    var h := log.events;
    forall j | 0 <= j < |h| && h[j].Appended? ensures Synced(h[j].family) in h[j + 1..] {
      HeaderDecides(log, cfCount, j);
    }
    KeptFrom(h, |h|);
  }

  // ---- the header block as a record -------------------------------------------------------------------------

  lemma HeaderIsBlock(hdr: Header, recs: seq<seq<byte>>)
    requires WellFormed(hdr) && HeaderSize(hdr.cfCount) <= COMMITLOGMAXSZ
    ensures ReadBlock(LogBytes(hdr, recs), 0) == Block(EncHeader(hdr), HeaderSize(hdr.cfCount))
  {
    hide EncHeader, Frames;
    HeaderLength(hdr);
    assert Holds(LogBytes(hdr, recs), 0, Frame(EncHeader(hdr)));
    ReadFrame(LogBytes(hdr, recs), 0, EncHeader(hdr));
  }

  /** The buffer with the header block is read as a mutation that is not inserted. */
  ghost predicate HeaderPasses(cat: Catalogue, hdr: Header, b: seq<byte>)
    requires WellFormed(hdr)
  {
    && DecRecord(cat, b).Ok?
    && var (m, good) := DecRecord(cat, b).value; !(good && Accepted(hdr, FamilyOf(cat, m), 0))
  }

  /** From position 0 the header block is taken for a mutation first: the records are inserted exactly
      when it happens to pass for one that is not wanted. */
  lemma RecoverFromZero(cat: Catalogue, cfCount: nat, log: Log, file: seq<byte>, seen: seq<seq<byte>>)
    requires GoodLog(cat, cfCount, log) && file == LogBytes(log.hdr, Recs(log.events)) && RecoverSaw(cat, log.hdr, file, seen)
    requires FirstDirty(log.hdr) == Some(0)
    ensures seen != [] && Holds(seen[0], 0, EncHeader(log.hdr)) && |seen[0]| == Reserved(NEW_SIZE, |EncHeader(log.hdr)|)
    ensures Recover(cat, log.hdr, file, seen) == (Returns(0), Mutations(cat, Kept(log.events))) <==> HeaderPasses(cat, log.hdr, seen[0])
    ensures DecRecord(cat, seen[0]).Fail? ==> Recover(cat, log.hdr, file, seen) == (Returns(-1), [])
    ensures DecRecord(cat, seen[0]).Wild? ==> Recover(cat, log.hdr, file, seen) == (Leaves, [])
  {
    hide LogBytes, Mutations, Kept, IsRecord, MutationOf, Pos, Accepted, DecRecord, EncHeader, ReadBlock, FirstDirty;
    var h := log.events;
    HeaderIsBlock(log.hdr, Recs(h));
    if DecRecord(cat, seen[0]).Ok? {
      StartOfRecords(HeaderSize(cfCount), h);
      ScanFromBoundary(cat, log.hdr, h, 0, file, seen[1..], |seen[0]|);
      var kept := Mutations(cat, Kept(h));
      assert |[DecRecord(cat, seen[0]).value.0] + kept| != |kept|;
      assert [] + kept == kept;
    }
  }

  lemma StartOfRecords(H: nat, h: seq<Event>)
    ensures Pos(H, h[..0]) == H && h[0..] == h
  {
  }

  /** The length that stands where the header block, taken for a mutation, has that of its key. */
  function KeyLength(hdr: Header): int32
    requires WellFormed(hdr) && hdr.cfCount > 0
  {
    HeaderLength(hdr);
    ToInt32(FromBytes(EncHeader(hdr), 4 + hdr.cfCount))
  }

  /** The first string in the header block: a single character, the number of its bitmap's bytes, without a
      terminator when there is one family. */
  lemma HeaderAsString(hdr: Header, b: seq<byte>)
    requires WellFormed(hdr) && 0 < hdr.cfCount < 2040 && Holds(b, 0, EncHeader(hdr))
    ensures DecBytes(b, 0).Ok? && DecBytes(b, 0).pos == 4 + hdr.cfCount
    ensures CString(DecBytes(b, 0).value) == if hdr.cfCount == 1 then None else Some([hdr.cfCount / 8 + 1])
  {
    hide CString, EncInts, GetByte, FromBytes;
    var n, bytes := hdr.cfCount, |hdr.dirtyBit|;
    var e := EncHeader(hdr);
    HeaderLength(hdr);
    HoldsSplit(b, 0, EncInt(n), EncBytes(hdr.dirtyBit) + EncInts(hdr.posAt));
    IntRoundTrip(b, 0, n);
    SmallCount(bytes);
    assert e[4] == EncInt(bytes)[0] && e[5] == EncInt(bytes)[1];
    assert b[4] == e[4] && b[5] == e[5];
    OneCharacter(b[4..4 + n]);
  }

  lemma HeaderAsKey(hdr: Header, b: seq<byte>)
    requires WellFormed(hdr) && hdr.cfCount > 0 && Holds(b, 0, EncHeader(hdr))
    ensures DecInt(b, 4 + hdr.cfCount) == Ok(KeyLength(hdr), 8 + hdr.cfCount)
  {
    hide EncHeader, ToInt32;
    HeaderLength(hdr);
    var e, p := EncHeader(hdr), 4 + hdr.cfCount;
    assert e[p] == b[0 + p] && e[p + 1] == b[0 + (p + 1)] && e[p + 2] == b[0 + (p + 2)] && e[p + 3] == b[0 + (p + 3)];
  }

  lemma SmallCount(bytes: nat)
    requires bytes < 256
    ensures EncInt(bytes)[0] == bytes && EncInt(bytes)[1] == 0
  {
  }

  lemma OneCharacter(x: seq<byte>)
    requires |x| > 0 && x[0] != 0 && (|x| > 1 ==> x[1] == 0)
    ensures CString(x) == if |x| == 1 then None else Some([x[0]])
  {
    if |x| > 1 {
      assert x[1..][0] == x[1];
      assert CString(x[1..]) == Some([]);
      assert [x[0]] + [] == [x[0]];
    } else {
      assert x[1..] == [];
    }
  }

  /** No keyspace has the name that the header block would be read as. */
  ghost predicate NoOddKeyspace(cat: Catalogue, cfCount: nat)
    requires cfCount < 2040
  {
    forall k :: k in cat ==> k.0 != [cfCount / 8 + 1]
  }

  /** What becomes of the header block when it is taken for a mutation, by the number of families, the bitmap and the
      positions that spell its key's length, and the bytes from there on: it never passes. It is a failure when
      a length is negative or behind the buffer's end, or when the name it gives is not a family's; and it sends the
      readers outside the buffer when a string is longer than the rest of it or has no terminator. */
  lemma HeaderOutcome(cat: Catalogue, hdr: Header, b: seq<byte>)
    requires WellFormed(hdr) && 0 < hdr.cfCount < 2040 && NoOddKeyspace(cat, hdr.cfCount) && Holds(b, 0, EncHeader(hdr))
    ensures var k, q := KeyLength(hdr), 8 + hdr.cfCount + KeyLength(hdr);
            DecRecord(cat, b) ==
            if k < 0 then Fail
            else if q > |b| then Wild
            else match DecBytes(b, q)
              case Fail => Fail
              case Wild => Wild
              case Ok(name, _) => if hdr.cfCount == 1 || CString(name).None? then Wild else Fail
  {
    hide DecFamily, Crc, CString, KeyLength, EncHeader, DecInt, NoOddKeyspace;
    HeaderAsString(hdr, b);
    HeaderAsKey(hdr, b);
    var q := 8 + hdr.cfCount + KeyLength(hdr);
    if q >= 0 && DecBytes(b, q).Ok? && CString(DecBytes(b, q).value).Some? {
      OddUnknown(cat, hdr.cfCount, CString(DecBytes(b, q).value).value);
    }
  }

  lemma OddUnknown(cat: Catalogue, cfCount: nat, name: CStr)
    requires cfCount < 2040 && NoOddKeyspace(cat, cfCount)
    ensures ([cfCount / 8 + 1], name) !in cat
  {
    var k := ([cfCount / 8 + 1], name);
    assert k.0 == [cfCount / 8 + 1];
  }

  /** Each family that was written was synced, too, be it earlier. */
  ghost predicate AllSynced(h: seq<Event>) {
    forall i :: 0 <= i < |h| && h[i].Appended? ==> Synced(h[i].family) in h
  }

  /** The first dirty position is 0 exactly when some family was written in this file and never synced. */
  lemma FirstDirtyZero(log: Log, cfCount: nat)
    requires ValidLog(log, cfCount) && forall i :: 0 <= i < |log.events| ==> log.events[i].family < cfCount
    ensures FirstDirty(log.hdr) == Some(0) <==> !AllSynced(log.events)
  {
    hide IsDirty;
    var H, h, flags := HeaderSize(cfCount), log.events, Flags(log.hdr);
    if FirstDirty(log.hdr) == Some(0) {
      var g := LeastHeld(flags, log.hdr.posAt, cfCount);
      NeverSynced(H, h, g);
      var i := SurvivorRecord(h, g);
    }
    if i :| 0 <= i < |h| && h[i].Appended? && Synced(h[i].family) !in h {
      var f := h[i].family;
      NeverSynced(H, h, f);
      SomeSurvivor(h, f, i);
      LeastBelow(flags, log.hdr.posAt, cfCount, f);
      if FirstDirty(log.hdr).value != 0 {
        var k := FirstDirtyAt(log, cfCount);
      }
    }
  }

  /** Recovery returns every record that it should, and no other, exactly when each family that was
      written in the file has also been synced in it. Otherwise it starts with the header block, and gets no further:
      it returns -1 or leaves its buffer, as `HeaderOutcome` says of the block. */
  lemma RecoversIffSynced(cat: Catalogue, cfCount: nat, log: Log, file: seq<byte>, seen: seq<seq<byte>>)
    requires GoodLog(cat, cfCount, log) && cfCount < 2040 && NoOddKeyspace(cat, cfCount)
    requires file == LogBytes(log.hdr, Recs(log.events)) && RecoverSaw(cat, log.hdr, file, seen)
    ensures Recover(cat, log.hdr, file, seen) == (Returns(0), Mutations(cat, Kept(log.events))) <==>
            AllSynced(log.events)
    ensures !AllSynced(log.events) ==>
              && seen != [] && Holds(seen[0], 0, EncHeader(log.hdr)) && |seen[0]| == Reserved(NEW_SIZE, |EncHeader(log.hdr)|)
              && Recover(cat, log.hdr, file, seen) == (if DecRecord(cat, seen[0]).Wild? then Leaves else Returns(-1), [])
  {
    hide LogBytes, Mutations, Kept, IsRecord, MutationOf, Scan, FirstDirty, Reflects, DecRecord, Saw, EncHeader, HeaderPasses;
    assert WellFormed(log.hdr) by { UnderValid(log, cfCount); }
    FirstDirtyZero(log, cfCount);
    if FirstDirty(log.hdr).None? {
      NothingToRecover(cat, cfCount, log);
      NoMutations(cat);
    } else if FirstDirty(log.hdr).value != 0 {
      RecoverFromPosition(cat, cfCount, log, file, seen);
    } else {
      RecoverFromZero(cat, cfCount, log, file, seen);
      SomeFamily(log, cfCount);
      NeverPasses(cat, log.hdr, seen[0]);
    }
  }

  lemma NeverPasses(cat: Catalogue, hdr: Header, b: seq<byte>)
    requires WellFormed(hdr) && 0 < hdr.cfCount < 2040 && NoOddKeyspace(cat, hdr.cfCount) && Holds(b, 0, EncHeader(hdr))
    ensures !DecRecord(cat, b).Ok? && !HeaderPasses(cat, hdr, b)
  {
    hide DecRecord, KeyLength, EncHeader, CString, DecBytes;
    HeaderOutcome(cat, hdr, b);
  }

  lemma UnderValid(log: Log, cfCount: nat)
    requires ValidLog(log, cfCount)
    ensures WellFormed(log.hdr)
  {
  }

  lemma NoMutations(cat: Catalogue)
    ensures Mutations(cat, []) == []
  {
  }

  lemma SomeFamily(log: Log, cfCount: nat)
    requires ValidLog(log, cfCount) && FirstDirty(log.hdr).Some?
    ensures cfCount > 0
  {
  }
}
