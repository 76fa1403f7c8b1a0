/** What is recovered from a log that a crash cut off, or in which records were damaged (recoverFromCurPos,
    db/commitLog.c, and readFile, utils/auxilFile.c). */
module TornLogs {
  import opened CStrings
  import opened Columns
  import opened Codec
  import opened Crc32
  import opened Files
  import opened LogHeaders
  import opened LogHistory
  import opened CommitLogs
  import opened Recovery

  /** A block that ends before the cut is read the same; one that the cut meets ends the file. */
  lemma ReadBlockCut(file: seq<byte>, p: nat, n: nat)
    requires n <= |file| && ReadBlock(file, p).Block?
    ensures ReadBlock(file[..n], p) == if ReadBlock(file, p).next <= n then ReadBlock(file, p) else Files.End
  {
    var cut := file[..n];
    if p + 4 <= n {
      assert cut[p] == file[p] && cut[p + 1] == file[p + 1] && cut[p + 2] == file[p + 2] && cut[p + 3] == file[p + 3];
      assert FromBytes(cut, p) == FromBytes(file, p);
    }
  }

  /** The record is read as a mutation with a wrong checksum, whatever the buffer holds behind it. */
  ghost predicate Spoilt(cat: Catalogue, rec: seq<byte>) {
    GoodBlock(rec) && forall b :: Holds(b, 0, rec) ==> DecRecord(cat, b).Ok? && !DecRecord(cat, b).value.1
  }

  /** A record whose checksum was damaged. */
  lemma ChecksumSpoilt(cat: Catalogue, m: Mutation, crc: uint32)
    requires GoodMutation(cat, m) && Fits(EncMutation(m) + EncInt(crc)) && crc as int != Crc(EncMutation(m))
    ensures Spoilt(cat, EncMutation(m) + EncInt(crc))
  {
    hide Crc, EncMutation, DecMutation, GoodMutation;
    var e := EncMutation(m);
    forall b | Holds(b, 0, e + EncInt(crc)) ensures DecRecord(cat, b).Ok? && !DecRecord(cat, b).value.1 {
      HoldsSplit(b, 0, e, EncInt(crc));
      MutationRoundTrip(cat, b, 0, m);
      UnsignedRoundTrip(b, |e|, crc);
      HoldsSlice(b, 0, e);
      assert b[..|e|] == b[0..|e|];
    }
  }

  /** A record in which up to four bytes in a row were damaged, and which still is a mutation of that length. */
  lemma BurstSpoilt(cat: Catalogue, before: seq<byte>, x: seq<byte>, y: seq<byte>, after: seq<byte>, m: Mutation)
    requires |x| == |y| <= 4 && x != y && EncMutation(m) == before + y + after && GoodMutation(cat, m)
    requires Fits(Seal(before + x + after))
    ensures Spoilt(cat, before + y + after + EncInt(Crc(before + x + after)))
  {
    hide Crc, EncMutation, GoodMutation;
    CrcBound(before + x + after);
    BurstDetected(before, x, y, after);
    ChecksumSpoilt(cat, m, Crc(before + x + after));
  }

  // ---- scanning what is left ------------------------------------------------------------------------------

  /** The same history, with some records damaged in place. */
  ghost predicate Damaged(cat: Catalogue, h: seq<Event>, d: seq<Event>) {
    && |d| == |h|
    && forall i :: 0 <= i < |h| && d[i] != h[i] ==>
         && h[i].Appended? && d[i].Appended? && d[i].family == h[i].family && |d[i].rec| == |h[i].rec|
         && Spoilt(cat, d[i].rec)
  }

  /** Nothing is damaged. */
  lemma Undamaged(cat: Catalogue, h: seq<Event>)
    ensures Damaged(cat, h, h)
  {
  }

  /** The mutations, from the event `i` on, of the records that lie in the first `n` bytes of the file, are not damaged
      and that no sync of their family follows. */
  function Left(cat: Catalogue, H: nat, h: seq<Event>, d: seq<Event>, i: nat, n: nat): seq<Mutation>
    requires |d| == |h| && i <= |h|
    decreases |h| - i
  {
    if i == |h| then []
    else
      (if h[i].Appended? && Synced(h[i].family) !in h[i + 1..] && d[i] == h[i] && Pos(H, h[..i + 1]) <= n
       then [MutationOf(cat, h[i].rec)] else []) + Left(cat, H, h, d, i + 1, n)
  }

  /** Damage moves nothing. */
  lemma {:induction false} SamePlaces(cat: Catalogue, H: nat, h: seq<Event>, d: seq<Event>, i: nat)
    requires Damaged(cat, h, d) && i <= |h|
    ensures Pos(H, d[..i]) == Pos(H, h[..i])
    decreases i
  {
    hide Pos, Spoilt;
    if i == 0 {
      assert d[..0] == h[..0];
    } else {
      SamePlaces(cat, H, h, d, i - 1);
      PosStep(H, h, i - 1);
      PosStep(H, d, i - 1);
    }
  }

  /** The block of the record `i` in the damaged file. */
  lemma DamagedBlock(cat: Catalogue, hdr: Header, h: seq<Event>, d: seq<Event>, i: nat)
    requires WellFormed(hdr) && Damaged(cat, h, d) && GoodRecords(cat, hdr.cfCount, h) && i < |h| && h[i].Appended?
    ensures ReadBlock(LogBytes(hdr, Recs(d)), Pos(HeaderSize(hdr.cfCount), h[..i])) ==
            Block(d[i].rec, Pos(HeaderSize(hdr.cfCount), h[..i + 1]))
  {
    hide ReadBlock, LogBytes, Pos, MutationOf, GoodMutation;
    var H := HeaderSize(hdr.cfCount);
    SamePlaces(cat, H, h, d, i);
    SamePlaces(cat, H, h, d, i + 1);
    assert GoodBlock(d[i].rec);
    NextBlock(hdr, d, i);
  }

  /** One round of the scan on a damaged record: it is passed over. */
  lemma ScanSpoilt(cat: Catalogue, hdr: Header, file: seq<byte>, p: nat, seen: seq<seq<byte>>, size: nat, rec: seq<byte>, next: nat)
    requires WellFormed(hdr) && ReadBlock(file, p) == Block(rec, next) && Saw(cat, file, p, seen, size) && Spoilt(cat, rec)
    ensures seen != [] && Saw(cat, file, next, seen[1..], |seen[0]|)
    ensures Scan(cat, hdr, file, p, seen) == Scan(cat, hdr, file, next, seen[1..])
  {
    hide DecRecord, ReadBlock, Accepted;
    var rest := Scan(cat, hdr, file, next, seen[1..]);
    assert [] + rest.1 == rest.1;
  }

  /** Behind the cut there is nothing. */
  lemma {:induction false} NothingLeft(cat: Catalogue, H: nat, h: seq<Event>, d: seq<Event>, i: nat, n: nat)
    requires |d| == |h| && i <= |h| && (i < |h| ==> n < Pos(H, h[..i + 1]))
    ensures Left(cat, H, h, d, i, n) == []
    decreases |h| - i
  {
    hide Pos, MutationOf;
    if i < |h| {
      if i + 1 < |h| { PosMonotone(H, h, i + 1, i + 2); }
      NothingLeft(cat, H, h, d, i + 1, n);
    }
  }

  lemma CutEnds(cat: Catalogue, hdr: Header, file: seq<byte>, p: nat, seen: seq<seq<byte>>)
    requires WellFormed(hdr) && ReadBlock(file, p) == Files.End
    ensures Scan(cat, hdr, file, p, seen) == (Returns(0), [])
  {
  }

  /** A log cut off anywhere, in which any records were damaged: from any boundary on, the scan returns 0 and inserts, in
      their order, exactly the records that are whole, that are not damaged and that no sync of their family follows. */
  lemma {:induction false} ScanTorn(cat: Catalogue, hdr: Header, h: seq<Event>, d: seq<Event>, i: nat, n: nat, seen: seq<seq<byte>>, size: nat)
    requires WellFormed(hdr) && i <= |h| && Damaged(cat, h, d) && n <= |LogBytes(hdr, Recs(d))|
    requires Reflects(HeaderSize(hdr.cfCount), hdr, h) && GoodRecords(cat, hdr.cfCount, h)
    requires Saw(cat, LogBytes(hdr, Recs(d))[..n], Pos(HeaderSize(hdr.cfCount), h[..i]), seen, size)
    ensures Scan(cat, hdr, LogBytes(hdr, Recs(d))[..n], Pos(HeaderSize(hdr.cfCount), h[..i]), seen)
         == (Returns(0), Left(cat, HeaderSize(hdr.cfCount), h, d, i, n))
    decreases |h| - i
  {
    hide LogBytes, Reflects, Accepted, IsRecord, ReadBlock, Frames, MutationOf, HeaderSize, Pos, Saw, Scan, Recs, Spoilt;
    var H, file := HeaderSize(hdr.cfCount), LogBytes(hdr, Recs(d));
    var p := Pos(H, h[..i]);
    if i == |h| {
      assert h[..i] == h;
      LastBlock(cat, hdr, h, d, n);
      CutEnds(cat, hdr, file[..n], p, seen);
    } else if h[i].Appended? {
      var next := Pos(H, h[..i + 1]);
      DamagedBlock(cat, hdr, h, d, i);
      ReadBlockCut(file, p, n);
      if n < next {
        CutEnds(cat, hdr, file[..n], p, seen);
        NothingLeft(cat, H, h, d, i, n);
      } else {
        if d[i] == h[i] {
          ScanOne(cat, hdr, file[..n], p, seen, size, h[i].family, h[i].rec, next);
        } else {
          ScanSpoilt(cat, hdr, file[..n], p, seen, size, d[i].rec, next);
          PassedOver(cat, H, h, d, i, n);
        }
        AcceptedIffNotSynced(H, hdr, h, i);
        ScanTorn(cat, hdr, h, d, i + 1, n, seen[1..], |seen[0]|);
      }
    } else {
      PosStep(H, h, i);
      ScanTorn(cat, hdr, h, d, i + 1, n, seen, size);
      PassedOver(cat, H, h, d, i, n);
    }
  }

  lemma PassedOver(cat: Catalogue, H: nat, h: seq<Event>, d: seq<Event>, i: nat, n: nat)
    requires |d| == |h| && i < |h| && (h[i].Synced? || d[i] != h[i])
    ensures Left(cat, H, h, d, i, n) == Left(cat, H, h, d, i + 1, n)
  {
  }

  /** Behind the last record there is no block, cut off or not. */
  lemma LastBlock(cat: Catalogue, hdr: Header, h: seq<Event>, d: seq<Event>, n: nat)
    requires WellFormed(hdr) && Damaged(cat, h, d) && n <= |LogBytes(hdr, Recs(d))|
    ensures ReadBlock(LogBytes(hdr, Recs(d))[..n], Pos(HeaderSize(hdr.cfCount), h)) == Files.End
  {
    hide LogBytes, Pos, Spoilt;
    SamePlaces(cat, HeaderSize(hdr.cfCount), h, d, |h|);
    assert d[..|h|] == d && h[..|h|] == h;
    EndIsLength(Log(hdr, d));
  }

  /** A log cut off anywhere behind its header, or with damaged records, whose first dirty position is not 0: recovery
      returns 0 and inserts exactly the records that are whole, not damaged, and that no sync of their family follows. */
  lemma RecoverTorn(cat: Catalogue, cfCount: nat, log: Log, d: seq<Event>, n: nat, seen: seq<seq<byte>>)
    requires GoodLog(cat, cfCount, log) && Damaged(cat, log.events, d) && HeaderSize(cfCount) <= n <= |LogBytes(log.hdr, Recs(d))|
    requires RecoverSaw(cat, log.hdr, LogBytes(log.hdr, Recs(d))[..n], seen)
    requires FirstDirty(log.hdr).Some? && FirstDirty(log.hdr).value != 0
    ensures Recover(cat, log.hdr, LogBytes(log.hdr, Recs(d))[..n], seen)
         == (Returns(0), Left(cat, HeaderSize(cfCount), log.events, d, 0, n))
  {
    hide LogBytes, Scan, Left, IsRecord, MutationOf, Pos, Accepted, Saw, Spoilt;
    var h := log.events;
    var i := FirstDirtyAt(log, cfCount);
    forall j | 0 <= j < i && h[j].Appended? ensures Synced(h[j].family) in h[j + 1..] {
      NotBefore(log, cfCount, i, j);
    }
    LeftFrom(cat, HeaderSize(cfCount), h, d, 0, i, n);
    ScanTorn(cat, log.hdr, h, d, i, n, seen, NEW_SIZE);
  }

  lemma {:induction false} LeftFrom(cat: Catalogue, H: nat, h: seq<Event>, d: seq<Event>, k: nat, i: nat, n: nat)
    requires |d| == |h| && k <= i <= |h|
    requires forall j :: k <= j < i && h[j].Appended? ==> Synced(h[j].family) in h[j + 1..]
    ensures Left(cat, H, h, d, k, n) == Left(cat, H, h, d, i, n)
    decreases i - k
  {
    hide Pos, MutationOf;
    if k < i {
      LeftFrom(cat, H, h, d, k + 1, i, n);
      assert Left(cat, H, h, d, k, n) == [] + Left(cat, H, h, d, k + 1, n);
    }
  }

  /** So a crash in the middle of appending a record costs this record only. */
  lemma TornAppend(cat: Catalogue, cfCount: nat, log: Log, f: nat, rec: seq<byte>, n: nat, seen: seq<seq<byte>>)
    requires GoodLog(cat, cfCount, log.(events := log.events + [Appended(f, rec)]))
    requires Pos(HeaderSize(cfCount), log.events) <= n < Pos(HeaderSize(cfCount), log.events + [Appended(f, rec)])
    requires n <= |LogBytes(log.hdr, Recs(log.events + [Appended(f, rec)]))|
    requires RecoverSaw(cat, log.hdr, LogBytes(log.hdr, Recs(log.events + [Appended(f, rec)]))[..n], seen)
    requires FirstDirty(log.hdr).Some? && FirstDirty(log.hdr).value != 0
    ensures Recover(cat, log.hdr, LogBytes(log.hdr, Recs(log.events + [Appended(f, rec)]))[..n], seen)
         == (Returns(0), Mutations(cat, Kept(log.events)))
  {
    hide LogBytes, Recover, MutationOf, Pos, FirstDirty, GoodRecords, RecoverSaw, Left;
    var h := log.events + [Appended(f, rec)];
    Undamaged(cat, h);
    StartOfRecords(HeaderSize(cfCount), h);
    PosMonotone(HeaderSize(cfCount), h, 0, |log.events|);
    assert h[..|log.events|] == log.events;
    RecoverTorn(cat, cfCount, log.(events := h), h, n, seen);
    LeftOfTorn(cat, HeaderSize(cfCount), log.events, f, rec, 0, n);
    assert log.events[0..] == log.events;
  }

  lemma {:induction false} LeftOfTorn(cat: Catalogue, H: nat, h: seq<Event>, f: nat, rec: seq<byte>, i: nat, n: nat)
    requires i <= |h| && Pos(H, h) <= n < Pos(H, h + [Appended(f, rec)])
    ensures var all := h + [Appended(f, rec)]; Left(cat, H, all, all, i, n) == Mutations(cat, Kept(h[i..]))
    decreases |h| - i
  {
    hide Pos, MutationOf, Kept, Mutations;
    var all := h + [Appended(f, rec)];
    assert all[..|h|] == h && all[..|h| + 1] == all;
    if i == |h| {
      NothingLeft(cat, H, all, all, i, n);
      NothingKept(cat, h);
    } else {
      NextKept(cat, h, i);
      PosMonotone(H, all, i + 1, |h|);
      assert all[i + 1..] == h[i + 1..] + [Appended(f, rec)];
      LeftOfTorn(cat, H, h, f, rec, i + 1, n);
    }
  }

  // ---- what ends the scan ---------------------------------------------------------------------------------------

  /** Bytes that follow leave a block as it is. */
  lemma ReadBlockMore(file: seq<byte>, p: nat, junk: seq<byte>)
    requires ReadBlock(file, p).Block?
    ensures ReadBlock(file + junk, p) == ReadBlock(file, p)
  {
    var all := file + junk;
    assert all[p] == file[p] && all[p + 1] == file[p + 1] && all[p + 2] == file[p + 2] && all[p + 3] == file[p + 3];
    assert FromBytes(all, p) == FromBytes(file, p);
  }

  /** How the scan takes what stands behind the last record, with `b` in its buffer if that is a block. */
  ghost predicate StopsAs(cat: Catalogue, junk: seq<byte>, b: seq<byte>, ending: Ending) {
    if |junk| < 4 then ending == Returns(0)
    else
      var n := FromBytes(junk, 0);
      if n == 0 then ending == Returns(-1)
      else if n >= 0x8000_0000 then ending == Leaves
      else if |junk| < 4 + n then ending == Returns(0)
      else
        && Holds(b, 0, junk[4..4 + n])
        && (DecRecord(cat, b).Fail? ==> ending == Returns(-1))
        && (DecRecord(cat, b).Wild? ==> ending == Leaves)
  }

  lemma ScanJunk(cat: Catalogue, hdr: Header, file: seq<byte>, junk: seq<byte>, seen: seq<seq<byte>>, size: nat)
    requires WellFormed(hdr) && Saw(cat, file + junk, |file|, seen, size)
    requires |junk| >= 4 && FromBytes(junk, 0) < 0x8000_0000 && |junk| >= 4 + FromBytes(junk, 0) && seen != [] ==> !DecRecord(cat, seen[0]).Ok?
    ensures StopsAs(cat, junk, if seen == [] then [] else seen[0], Scan(cat, hdr, file + junk, |file|, seen).0)
    ensures Scan(cat, hdr, file + junk, |file|, seen).1 == []
  {
    hide DecRecord, Accepted;
    var all, p := file + junk, |file|;
    if |junk| >= 4 {
      assert all[p] == junk[0] && all[p + 1] == junk[1] && all[p + 2] == junk[2] && all[p + 3] == junk[3];
      assert FromBytes(all, p) == FromBytes(junk, 0);
      var n := FromBytes(junk, 0);
      if |junk| >= 4 + n {
        assert all[p + 4..p + 4 + n] == junk[4..4 + n];
      }
    }
  }

  /** What stands behind the records ends the scan after it has inserted theirs that no sync of their family follows: less
      than a length, or less bytes than the length says, is the end of the file and returns 0; a length of 0, or a
      block that is not read as a mutation, returns -1; and a negative length, or a block that sends the readers
      outside the buffer, leaves it. */
  lemma {:induction false} ScanThenJunk(cat: Catalogue, hdr: Header, h: seq<Event>, i: nat, junk: seq<byte>, seen: seq<seq<byte>>, size: nat)
    requires WellFormed(hdr) && i <= |h| && Reflects(HeaderSize(hdr.cfCount), hdr, h) && GoodRecords(cat, hdr.cfCount, h)
    requires Saw(cat, LogBytes(hdr, Recs(h)) + junk, Pos(HeaderSize(hdr.cfCount), h[..i]), seen, size)
    requires forall k :: |Recs(h[i..])| <= k < |seen| ==> !DecRecord(cat, seen[k]).Ok?
    ensures var r := Scan(cat, hdr, LogBytes(hdr, Recs(h)) + junk, Pos(HeaderSize(hdr.cfCount), h[..i]), seen);
            && r.1 == Mutations(cat, Kept(h[i..]))
            && StopsAs(cat, junk, if |Recs(h[i..])| < |seen| then seen[|Recs(h[i..])|] else [], r.0)
    decreases |h| - i
  {
    hide LogBytes, Reflects, Accepted, IsRecord, ReadBlock, Frames, MutationOf, HeaderSize, Pos, Saw, Scan, Kept, Mutations, StopsAs, DecRecord;
    var H, file := HeaderSize(hdr.cfCount), LogBytes(hdr, Recs(h));
    var p := Pos(H, h[..i]);
    if i == |h| {
      assert h[..i] == h && Recs(h[i..]) == [];
      AtTheEnd(hdr, h);
      ScanJunk(cat, hdr, file, junk, seen, size);
      NothingKept(cat, h);
    } else {
      NextKept(cat, h, i);
      assert h[i..][1..] == h[i + 1..];
      if h[i].Appended? {
        RecordBlock(cat, hdr, h, i);
        ReadBlockMore(file, p, junk);
        ScanOne(cat, hdr, file + junk, p, seen, size, h[i].family, h[i].rec, Pos(H, h[..i + 1]));
        AcceptedIffNotSynced(H, hdr, h, i);
        assert |Recs(h[i..])| == 1 + |Recs(h[i + 1..])|;
        assert forall k :: 0 <= k < |seen[1..]| ==> seen[1..][k] == seen[k + 1];
        ScanThenJunk(cat, hdr, h, i + 1, junk, seen[1..], |seen[0]|);
      } else {
        PosStep(H, h, i);
        ScanThenJunk(cat, hdr, h, i + 1, junk, seen, size);
      }
    }
  }

  lemma AtTheEnd(hdr: Header, h: seq<Event>)
    requires WellFormed(hdr)
    ensures |LogBytes(hdr, Recs(h))| == Pos(HeaderSize(hdr.cfCount), h)
  {
    EndIsLength(Log(hdr, h));
  }

  /** A log of which no family is dirty is not scanned, whatever is in it, and neither is one that has a negative
      position for a dirty family. */
  lemma NotScanned(cat: Catalogue, hdr: Header, file: seq<byte>, seen: seq<seq<byte>>)
    requires WellFormed(hdr)
    requires (forall f: nat :: f < hdr.cfCount ==> !IsDirty(hdr, f)) || exists f: nat :: f < hdr.cfCount && IsDirty(hdr, f) && hdr.posAt[f] < 0
    ensures Recover(cat, hdr, file, seen) == (Returns(0), [])
  {
    hide Scan, IsDirty;
    if FirstDirty(hdr).Some? {
      var g := LeastHeld(Flags(hdr), hdr.posAt, hdr.cfCount);
    }
    if f: nat :| f < hdr.cfCount && IsDirty(hdr, f) && hdr.posAt[f] < 0 {
      LeastBelow(Flags(hdr), hdr.posAt, hdr.cfCount, f);
    }
  }
}
