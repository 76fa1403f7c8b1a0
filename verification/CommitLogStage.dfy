/** The objects of db/commitLog.c: one log with its file and header, and the globals `curCL` and `preCLS`
    that the commit-log stage works on. */
module CommitLogStage {
  import opened CStrings
  import opened Columns
  import opened Codec
  import opened Buffers
  import opened Files
  import opened LogHeaders
  import opened LogHistory
  import opened CommitLogs
  import opened Crc32

  class CommitLog {
    const fa: FileAbstract
    const clh: CLHeader
    ghost var log: Log

    /** `getCommitLogWriter`: a new file that holds the header block. */
    constructor (cfCount: nat)
      requires cfCount < 0x8000_0000
      ensures Valid() && fresh(Repr()) && log == Log(FreshHeader(cfCount), [])
    {
      fa := new FileAbstract([]);
      clh := new CLHeader(cfCount);
      log := Log(FreshHeader(cfCount), []);
      new;
      WriteHeaderSyn(false);
      assert LogBytes(clh.Value(), Recs([])) == Frame(EncHeader(clh.Value()));
    }

    ghost function Repr(): set<object> {
      {this, fa, clh, clh.dirtyBit, clh.posAt}
    }

    /** The file is what the header and the records make of it, and its cursor is at the end. */
    ghost predicate Valid()
      reads this, fa, clh, clh.dirtyBit, clh.posAt
    {
      clh.Valid() && clh.Value() == log.hdr && fa.pos == |fa.bytes| && fa.bytes == LogBytes(log.hdr, Recs(log.events))
    }

    /** The header in a new buffer. */
    method HeaderBlock() returns (buff: Buffer)
      requires clh.Valid()
      ensures fresh(buff) && buff.Valid() && buff.Written() == EncHeader(clh.Value()) && buff.pos > 0
    {
      buff := new Buffer();
      ghost var before := buff.Written();
      clh.Serialize(buff);
      assert before + EncHeader(clh.Value()) == EncHeader(clh.Value());
      assert buff.pos == |buff.Written()|;
    }

    /** `writeHeaderSyn`; with `needSeekFile` the cursor is put back. */
    method WriteHeaderSyn(needSeekFile: bool)
      requires clh.Valid() && fa.pos <= |fa.bytes|
      modifies fa
      ensures fa.bytes == WriteAt(old(fa.bytes), 0, Frame(EncHeader(clh.Value())))
      ensures fa.pos == if needSeekFile then old(fa.pos) else |Frame(EncHeader(clh.Value()))|
    {
      var pos := 0;
      if needSeekFile {
        pos := fa.pos;
      }
      var buff := HeaderBlock();
      fa.Seek(0);
      fa.WriteAppend(buff);
      if needSeekFile {
        fa.Seek(pos);
      }
    }

    /** A changed header goes to disk in place; the records stay as they are. */
    method Rewrite(ghost was: Header, ghost recs: seq<seq<byte>>)
      requires clh.Valid() && WellFormed(was) && was.cfCount == clh.cfCount
      requires fa.bytes == LogBytes(was, recs) && fa.pos == |fa.bytes|
      modifies fa
      ensures fa.bytes == LogBytes(clh.Value(), recs) && fa.pos == |fa.bytes|
    {
      RewriteHeader(was, clh.Value(), recs);
      SameLength(was, clh.Value(), recs);
      WriteHeaderSyn(true);
    }

    /** The part of `writeCommitLog` that works on one log: mark the family, then append the record. */
    method Append(rm: Buffer, cfid: nat)
      requires Valid() && rm.Valid() && rm.pos > 0 && rm !in Repr() && rm.buff !in Repr()
      modifies this, fa, clh.dirtyBit
      ensures Valid() && log == Write(old(log), cfid, rm.Written())
    {
      Mark(cfid);
      ghost var rec := rm.Written();
      AppendRecord(log.hdr, Recs(log.events), rec);
      RecsSnoc(log.events, cfid, rec);
      fa.WriteAppend(rm);
      log := Log(log.hdr, log.events + [Appended(cfid, rec)]);
    }

    /** The checksum goes behind the mutation, then both to the file. */
    method AppendSealed(rm: Buffer, crc32: nat, cfid: nat)
      requires Valid() && rm.Valid() && rm !in Repr() && rm.buff !in Repr()
      modifies this, fa, clh.dirtyBit, rm, rm.buff
      ensures Valid() && log == Write(old(log), cfid, old(rm.Written()) + EncInt(crc32))
    {
      PutChecksum(rm, crc32);
      Append(rm, cfid);
    }

    /** If the family is clean, it is marked, and the header goes to disk. */
    method Mark(cfid: nat)
      requires Valid()
      modifies this, clh.dirtyBit, fa
      ensures Valid() && log == Log(Marked(old(log.hdr), cfid), old(log.events))
    {
      var dirty := clh.TestDirty(cfid);
      if !dirty {
        clh.SetDirty(cfid, true);
        Rewrite(log.hdr, Recs(log.events));
        log := Log(clh.Value(), log.events);
      }
    }

    /** `synCommitLog`. */
    method Syn(cfid: nat)
      requires Valid()
      modifies this, fa, clh.dirtyBit, clh.posAt
      ensures Valid() && log == Sync(old(log), cfid)
    {
      EndIsLength(log);
      clh.SetDirty(cfid, false);
      clh.SetEntryPos(cfid, ToInt32(fa.pos));
      Rewrite(log.hdr, Recs(log.events));
      RecsSynced(log.events, cfid);
      log := Sync(log, cfid);
    }
  }

  lemma SameLength(h1: Header, h2: Header, recs: seq<seq<byte>>)
    requires WellFormed(h1) && WellFormed(h2) && h1.cfCount == h2.cfCount
    ensures |LogBytes(h1, recs)| == |LogBytes(h2, recs)|
  {
    HeaderLength(h1);
    HeaderLength(h2);
  }

  lemma RecsSnoc(h: seq<Event>, f: nat, rec: seq<byte>)
    ensures Recs(h + [Appended(f, rec)]) == Recs(h) + [rec]
  {
    RecsAppend(h, [Appended(f, rec)]);
    assert [Appended(f, rec)][1..] == [];
  }

  lemma RecsSynced(h: seq<Event>, f: nat)
    ensures Recs(h + [Synced(f)]) == Recs(h)
  {
    RecsAppend(h, [Synced(f)]);
    assert Recs([Synced(f)]) == [];
  }

  /** Logs that are no longer written, all inside `shelf`. */
  ghost predicate Shelved(logs: seq<CommitLog>, pre: seq<Log>, shelf: set<object>)
    reads shelf
  {
    |logs| == |pre| && forall i :: 0 <= i < |logs| ==> logs[i].Repr() <= shelf && logs[i].Valid() && logs[i].log == pre[i]
  }

  lemma OneMoreShelved(cl: CommitLog, logs: seq<CommitLog>, pre: seq<Log>, shelf: set<object>)
    requires cl.Valid() && Shelved(logs, pre, shelf)
    ensures Shelved([cl] + logs, [cl.log] + pre, cl.Repr() + shelf)
  {
    hide CommitLog.Valid, CommitLog.Repr;
    var all, more := [cl] + logs, [cl.log] + pre;
    forall i | 0 <= i < |all| ensures all[i].Repr() <= cl.Repr() + shelf && all[i].Valid() && all[i].log == more[i] {
      if i > 0 {
        assert all[i] == logs[i - 1] && more[i] == pre[i - 1];
      }
    }
  }

  method PutChecksum(rm: Buffer, crc32: nat)
    requires rm.Valid()
    modifies rm, rm.buff
    ensures rm.Valid() && rm.pos > 0 && rm.Written() == old(rm.Written()) + EncInt(crc32)
    ensures rm.buff == old(rm.buff) || fresh(rm.buff)
  {
    rm.WriteInt(crc32);
    assert rm.pos == |rm.Written()|;
  }

  class Stage {
    const cfCount: nat
    var curCL: CommitLog?
    var preCLS: seq<CommitLog>
    ghost var pre: seq<Log>
    ghost var shelf: set<object>

    constructor (cfCount: nat)
      requires cfCount < 0x8000_0000
      ensures Valid() && Value() == Disk(cfCount, [], None)
    {
      this.cfCount := cfCount;
      curCL, preCLS, pre, shelf := null, [], [], {};
    }

    ghost function CurRepr(): set<object>
      reads this
    {
      if curCL == null then {} else curCL.Repr()
    }

    ghost predicate Valid()
      reads this, CurRepr(), shelf
    {
      && cfCount < 0x8000_0000 && this !in shelf && Shelved(preCLS, pre, shelf)
      && (curCL != null ==> this !in curCL.Repr() && curCL.Repr() !! shelf && curCL.Valid() && curCL.clh.cfCount == cfCount)
    }

    ghost function Value(): (d: Disk)
      requires Valid()
      reads this, CurRepr(), shelf
      ensures d.cfCount == cfCount && (d.cur.Some? ==> WellFormed(d.cur.value.hdr))
    {
      Disk(cfCount, pre, if curCL == null then None else Some(curCL.log))
    }

    /** `beforeWrite`. */
    method BeforeWrite()
      requires Valid()
      modifies this
      ensures Valid() && curCL != null && Value() == CommitLogs.BeforeWrite(old(Value()))
      ensures fresh(CurRepr() - old(CurRepr())) && shelf <= old(CurRepr() + shelf)
    {
      if curCL == null {
        NewLog();
        return;
      }
      EndIsLength(curCL.log);
      if curCL.fa.pos > COMMITLOGMAXSZ {
        Retire();
        NewLog();
      }
    }

    /** `LIST_INSERT_HEAD(&preCLS, curCL, link)`. */
    method Retire()
      requires Valid() && curCL != null
      modifies this
      ensures Valid() && curCL == null && shelf == old(CurRepr() + shelf) && pre == [old(curCL.log)] + old(pre)
    {
      hide Shelved, CommitLog.Valid;
      OneMoreShelved(curCL, preCLS, pre, shelf);
      assert this !in curCL.Repr() && this !in shelf;
      pre := [curCL.log] + pre;
      preCLS := [curCL] + preCLS;
      shelf := curCL.Repr() + shelf;
      curCL := null;
    }

    method NewLog()
      requires Valid() && curCL == null
      modifies `curCL
      ensures Valid() && curCL != null && fresh(CurRepr()) && curCL.log == Log(FreshHeader(cfCount), [])
    {
      var log := new CommitLog(cfCount);
      curCL := log;
    }

    /** `writeCommitLog` of a serialised mutation. */
    method WriteCommitLog(tab: array<Word>, rm: Buffer, cfid: nat)
      requires Valid() && Generated(tab[..]) && rm.Valid()
      requires rm !in {this} + CurRepr() + shelf && rm.buff !in {this} + CurRepr() + shelf
      modifies this, CurRepr(), rm, rm.buff
      ensures Valid() && Value() == WriteStep(old(Value()), cfid, Seal(old(rm.Written())))
    {
      var crc32 := Checksum(tab, rm.buff[..rm.pos]);
      BeforeWrite();
      AppendTo(rm, crc32, cfid);
    }

    /** The end of `writeCommitLog`, on the log that `beforeWrite` chose. */
    method AppendTo(rm: Buffer, crc32: nat, cfid: nat)
      requires Valid() && curCL != null && rm.Valid()
      requires rm !in {this} + CurRepr() + shelf && rm.buff !in {this} + CurRepr() + shelf
      modifies CurRepr(), rm, rm.buff
      ensures Valid() && curCL.log == Write(old(curCL.log), cfid, old(rm.Written()) + EncInt(crc32))
    {
      curCL.AppendSealed(rm, crc32, cfid);
    }

    /** `synCommitLog`, which takes the current log for granted: without one, the process does not survive it. */
    method SynCommitLog(cfid: nat) returns (survives: bool)
      requires Valid()
      modifies CurRepr()
      ensures Valid() && survives == (TaskStep(old(Value()), Synced(cfid)) != None)
      ensures Value() == if survives then SyncStep(old(Value()), cfid) else old(Value())
    {
      survives := curCL != null;
      if survives {
        curCL.Syn(cfid);
      }
    }
  }
}
