/** What becomes of a log's header block when `recoverFromCurPos` starts at position 0 and takes it for a
    mutation (db/commitLog.c): whether recovery returns -1 or leaves its buffer. */
module HeaderBlocks {
  import opened CStrings
  import opened Columns
  import opened Codec
  import opened Bits
  import opened Files
  import opened LogHeaders
  import opened LogHistory
  import opened CommitLogs
  import opened Crc32
  import opened Recovery

  lemma {:induction false} ZeroInts(s: seq<int32>)
    requires forall i :: 0 <= i < |s| ==> s[i] == 0
    ensures forall i :: 0 <= i < |EncInts(s)| ==> EncInts(s)[i] == 0
  {
    if s != [] {
      ZeroInts(s[1..]);
      assert EncInt(0) == [0, 0, 0, 0];
    }
  }

  /** The header block, byte by byte, before any sync. */
  lemma HeaderBytes(hdr: Header, i: nat)
    requires WellFormed(hdr) && hdr.cfCount < 2040 && forall f :: 0 <= f < hdr.cfCount ==> hdr.posAt[f] == 0
    requires 4 <= i < 9 + hdr.cfCount / 8 + 4 * hdr.cfCount
    ensures |EncHeader(hdr)| == 9 + hdr.cfCount / 8 + 4 * hdr.cfCount
    ensures EncHeader(hdr)[i] == if i == 4 then hdr.cfCount / 8 + 1 else if 8 <= i < 9 + hdr.cfCount / 8 then hdr.dirtyBit[i - 8] else 0
  {
    hide EncInts, GetByte;
    HeaderLength(hdr);
    EncIntsLength(hdr.posAt);
    ZeroInts(hdr.posAt);
    ShortCount(|hdr.dirtyBit|);
    var n, len, bits, pos := EncInt(hdr.cfCount), EncInt(|hdr.dirtyBit|), hdr.dirtyBit, EncInts(hdr.posAt);
    assert EncHeader(hdr) == n + (len + bits + pos);
    assert (len + bits + pos)[i - 4] == if i < 8 then len[i - 4] else if i - 8 < |bits| then bits[i - 8] else pos[i - 8 - |bits|];
  }

  lemma ShortCount(bytes: nat)
    requires bytes < 256
    ensures EncInt(bytes) == [bytes, 0, 0, 0]
  {
  }

  /** With up to seven families, the one byte of the bitmap. */
  lemma OneByte(hdr: Header, f: nat)
    requires WellFormed(hdr) && Padded(hdr) && hdr.cfCount < 8 && IsDirty(hdr, f)
    ensures 0 < hdr.dirtyBit[0] < Pow2(hdr.cfCount)
  {
    hide Number, BitsOf;
    var bits := BitsOf(hdr.dirtyBit[0], 8);
    forall k | hdr.cfCount <= k < 8 ensures !bits[k] {
      assert !TestBit(hdr.dirtyBit[0], k);
    }
    assert f / 8 == 0 && f % 8 == f;
    SomeBit(bits, f);
    LowBits(bits, hdr.cfCount);
    Pow2Values();
    NumberOfBits(hdr.dirtyBit[0], 8);
  }

  /** Before any sync, what stands for the length of the key. */
  lemma KeyBeforeSync(hdr: Header)
    requires WellFormed(hdr) && 0 < hdr.cfCount < 2040 && forall g :: 0 <= g < hdr.cfCount ==> hdr.posAt[g] == 0
    ensures KeyLength(hdr) == match hdr.cfCount
                              case 1 => ToInt32(0x100_0000 * (hdr.dirtyBit[0] as int))
                              case 2 => ToInt32(0x1_0000 * (hdr.dirtyBit[0] as int))
                              case 3 => ToInt32(0x100 * (hdr.dirtyBit[0] as int))
                              case 4 => ToInt32(hdr.dirtyBit[0] as int)
                              case _ => 0
  {
    hide EncHeader, ToInt32;
    var n, e := hdr.cfCount, EncHeader(hdr);
    HeaderBytes(hdr, 4 + n);
    HeaderBytes(hdr, 5 + n);
    HeaderBytes(hdr, 6 + n);
    HeaderBytes(hdr, 7 + n);
    ZeroIs();
  }

  lemma ZeroIs()
    ensures ToInt32(0) == 0
  {
  }

  /** Before any sync, with other than four families, reading the header block for a mutation leaves the buffer:
      the key's length is 2^8 bytes or more with up to three families, and with more than four it is 0, and the name's
      after it, too. */
  lemma NoSyncLeaves(cat: Catalogue, hdr: Header, b: seq<byte>, f: nat)
    requires WellFormed(hdr) && Padded(hdr) && hdr.cfCount < 2040 && hdr.cfCount != 4 && IsDirty(hdr, f)
    requires forall g :: 0 <= g < hdr.cfCount ==> hdr.posAt[g] == 0
    requires Holds(b, 0, EncHeader(hdr)) && |b| == Reserved(NEW_SIZE, |EncHeader(hdr)|)
    ensures DecRecord(cat, b) == Wild
  {
    hide DecFamily, Crc, CString, EncHeader, GetByte, KeyLength, TestBit, Padded;
    HeaderAsString(hdr, b);
    HeaderAsKey(hdr, b);
    KeyBeforeSync(hdr);
    HeaderLength(hdr);
    if hdr.cfCount < 4 {
      OneByte(hdr, f);
      assert Pow2(1) == 2 && Pow2(2) == 4 && Pow2(3) == 8;
      assert KeyLength(hdr) >= 0x100;
    } else {
      NoName(hdr, b);
    }
  }

  lemma NoName(hdr: Header, b: seq<byte>)
    requires WellFormed(hdr) && 4 < hdr.cfCount < 2040 && Holds(b, 0, EncHeader(hdr))
    requires forall g :: 0 <= g < hdr.cfCount ==> hdr.posAt[g] == 0
    ensures DecBytes(b, 8 + hdr.cfCount) == Ok([], 12 + hdr.cfCount) && CString([]) == None
  {
    hide EncHeader;
    var e, q := EncHeader(hdr), 8 + hdr.cfCount;
    HeaderBytes(hdr, q);
    HeaderBytes(hdr, q + 1);
    HeaderBytes(hdr, q + 2);
    HeaderBytes(hdr, q + 3);
    assert e[q] == b[0 + q] && e[q + 1] == b[0 + (q + 1)] && e[q + 2] == b[0 + (q + 2)] && e[q + 3] == b[0 + (q + 3)];
    assert FromBytes(b, q) == 0;
    assert b[q + 4..q + 4] == [];
  }

  /** So the recovery of a log in which something was written and nothing synced leaves its buffer, before anything is
      inserted, unless there are four families. */
  lemma UnsyncedLogLeaves(cat: Catalogue, cfCount: nat, log: Log, file: seq<byte>, seen: seq<seq<byte>>, i: nat)
    requires GoodLog(cat, cfCount, log) && cfCount < 2040 && cfCount != 4
    requires file == LogBytes(log.hdr, Recs(log.events)) && RecoverSaw(cat, log.hdr, file, seen)
    requires i < |log.events| && log.events[i].Appended? && forall f :: Synced(f) !in log.events
    ensures Recover(cat, log.hdr, file, seen) == (Leaves, [])
  {
    hide LogBytes, Mutations, Kept, IsRecord, MutationOf, Scan, DecRecord, Saw, EncHeader, HeaderPasses, FirstDirty;
    var h, f := log.events, log.events[i].family;
    FirstDirtyZero(log, cfCount);
    RecoverFromZero(cat, cfCount, log, file, seen);
    SomeSurvivor(h, f, i);
    forall g: nat | g < cfCount ensures log.hdr.posAt[g] == 0 {
      LastSyncBound(HeaderSize(cfCount), h, g);
    }
    NoSyncLeaves(cat, log.hdr, seen[0], f);
  }

  /** With two families, the length of the key is negative, and recovery returns -1, exactly when the low byte of
      the first position has its top bit; otherwise it leaves the buffer. */
  lemma TwoFamilies(cat: Catalogue, hdr: Header, b: seq<byte>, f: nat)
    requires WellFormed(hdr) && Padded(hdr) && hdr.cfCount == 2 && IsDirty(hdr, f)
    requires Holds(b, 0, EncHeader(hdr)) && |b| == Reserved(NEW_SIZE, |EncHeader(hdr)|)
    ensures DecRecord(cat, b) == if (hdr.posAt[0] as int) % 0x100 >= 0x80 then Fail else Wild
  {
    hide DecFamily, Crc, CString, GetByte, KeyLength, EncHeader, Padded, IsDirty;
    HeaderLength(hdr);
    HeaderAsString(hdr, b);
    HeaderAsKey(hdr, b);
    OneByte(hdr, f);
    TwoFamiliesKey(hdr);
  }

  lemma TwoFamiliesKey(hdr: Header)
    requires WellFormed(hdr) && hdr.cfCount == 2
    ensures KeyLength(hdr) == ToInt32(0x1_0000 * (hdr.dirtyBit[0] as int) + 0x100_0000 * ((hdr.posAt[0] as int) % 0x100))
  {
    hide ToInt32;
    HeaderLength(hdr);
    ShortCount(1);
    var e := EncHeader(hdr);
    assert |hdr.dirtyBit| == 1 && hdr.dirtyBit == [hdr.dirtyBit[0]];
    assert EncInts(hdr.posAt)[0] == GetByte(hdr.posAt[0], 0);
    assert e[6] == 0 && e[7] == 0 && e[8] == hdr.dirtyBit[0] && e[9] == hdr.posAt[0] % 0x100;
  }
}
