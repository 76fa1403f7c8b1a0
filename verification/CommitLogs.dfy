/** Commit logs (db/commitLog.c): a header block rewritten in place in front of appended records, the
    rotation to a new file, and the writes and syncs of the commit-log stage. */
module CommitLogs {
  import opened CStrings
  import opened Columns
  import opened Codec
  import opened Buffers
  import opened Files
  import opened LogHeaders
  import opened LogHistory
  import opened Crc32
  import opened Bits

  const COMMITLOGMAXSZ: nat := 1024 * 1024 * 200

  /** The length of the header block of a log for `cfCount` families. */
  function HeaderSize(cfCount: nat): nat {
    4 + 8 + (cfCount / 8 + 1) + 4 * cfCount
  }

  /** One file: its header, and what was done to it. */
  datatype Log = Log(hdr: Header, events: seq<Event>)

  function LogBytes(hdr: Header, recs: seq<seq<byte>>): seq<byte> {
    Frame(EncHeader(hdr)) + Frames(recs)
  }

  function End(log: Log): nat {
    Pos(HeaderSize(log.hdr.cfCount), log.events)
  }

  lemma EndIsLength(log: Log)
    requires WellFormed(log.hdr)
    ensures |LogBytes(log.hdr, Recs(log.events))| == End(log)
    ensures |Frame(EncHeader(log.hdr))| == HeaderSize(log.hdr.cfCount)
  {
    HeaderLength(log.hdr);
  }

  /** Rewriting the header block in place leaves every record where it is. */
  lemma RewriteHeader(h1: Header, h2: Header, recs: seq<seq<byte>>)
    requires WellFormed(h1) && WellFormed(h2) && h1.cfCount == h2.cfCount
    ensures WriteAt(LogBytes(h1, recs), 0, Frame(EncHeader(h2))) == LogBytes(h2, recs)
  {
    HeaderLength(h1);
    HeaderLength(h2);
  }

  lemma AppendRecord(hdr: Header, recs: seq<seq<byte>>, rec: seq<byte>)
    ensures var b := LogBytes(hdr, recs); WriteAt(b, |b|, Frame(rec)) == LogBytes(hdr, recs + [rec])
  {
    FramesSnoc(recs, rec);
  }

  // ---- the steps of the stage -------------------------------------------------------------------

  /** The record that `writeCommitLog` writes: the mutation and its checksum. */
  function Seal(m: seq<byte>): seq<byte> {
    m + EncInt(Crc(m))
  }

  /** A log with one more record. */
  function Write(log: Log, f: nat, rec: seq<byte>): Log
    requires WellFormed(log.hdr)
  {
    Log(Marked(log.hdr, f), log.events + [Appended(f, rec)])
  }

  /** A log after `synCommitLog`. */
  function Sync(log: Log, f: nat): Log
    requires WellFormed(log.hdr)
  {
    Log(WithPos(WithDirty(log.hdr, f, false), f, ToInt32(End(log))), log.events + [Synced(f)])
  }

  /** All files: the full ones, the newest first, and the one being written. */
  datatype Disk = Disk(cfCount: nat, pre: seq<Log>, cur: Option<Log>)

  /** `beforeWrite`: a first file, or a new one once the current one is too long. */
  function BeforeWrite(d: Disk): Disk
    requires d.cfCount < 0x8000_0000
  {
    match d.cur
    case None => Disk(d.cfCount, d.pre, Some(Log(FreshHeader(d.cfCount), [])))
    case Some(log) =>
      if End(log) > COMMITLOGMAXSZ then Disk(d.cfCount, [log] + d.pre, Some(Log(FreshHeader(d.cfCount), []))) else d
  }

  function WriteStep(d: Disk, f: nat, rec: seq<byte>): Disk
    requires d.cfCount < 0x8000_0000 && (d.cur.Some? ==> WellFormed(d.cur.value.hdr))
  {
    var d' := BeforeWrite(d);
    Disk(d'.cfCount, d'.pre, Some(Write(d'.cur.value, f, rec)))
  }

  function SyncStep(d: Disk, f: nat): Disk
    requires d.cur.Some? && WellFormed(d.cur.value.hdr)
  {
    Disk(d.cfCount, d.pre, Some(Sync(d.cur.value, f)))
  }

  // ---- what every step keeps -----------------------------------------------------------------------

  ghost predicate ValidLog(log: Log, cfCount: nat) {
    && log.hdr.cfCount == cfCount && Reflects(HeaderSize(cfCount), log.hdr, log.events)
    && End(log) < 0x8000_0000 && Padded(log.hdr)
  }

  ghost predicate ValidDisk(d: Disk) {
    && HeaderSize(d.cfCount) <= COMMITLOGMAXSZ
    && (forall i :: 0 <= i < |d.pre| ==> ValidLog(d.pre[i], d.cfCount))
    && (d.cur.Some? ==> ValidLog(d.cur.value, d.cfCount))
  }

  /** A record that fits behind a file of the longest kind without passing what an int can hold. */
  predicate Fits(rec: seq<byte>) {
    COMMITLOGMAXSZ + |Frame(rec)| < 0x8000_0000
  }

  lemma FreshReflects(cfCount: nat)
    requires HeaderSize(cfCount) <= COMMITLOGMAXSZ
    ensures ValidLog(Log(FreshHeader(cfCount), []), cfCount) && End(Log(FreshHeader(cfCount), [])) == HeaderSize(cfCount)
  {
    FreshPadded(cfCount);
    forall i: nat | i < cfCount ensures !IsDirty(FreshHeader(cfCount), i) {
      ZeroBits(i % 8);
    }
  }

  lemma WriteValid(log: Log, cfCount: nat, f: nat, rec: seq<byte>)
    requires ValidLog(log, cfCount) && f < cfCount && End(log) <= COMMITLOGMAXSZ && Fits(rec)
    ensures ValidLog(Write(log, f, rec), cfCount)
  {
    hide Padded, WithDirty, Reflects, IsDirty, HeaderSize;
    assert WellFormed(log.hdr) by { WellFormedOf(log, cfCount); }
    AppendReflects(HeaderSize(cfCount), log.hdr, log.events, f, rec);
    WithDirtyPadded(log.hdr, f, true);
    PosStep(HeaderSize(cfCount), log.events + [Appended(f, rec)], |log.events|);
    assert (log.events + [Appended(f, rec)])[..|log.events|] == log.events;
    assert (log.events + [Appended(f, rec)])[..|log.events| + 1] == log.events + [Appended(f, rec)];
  }

  lemma WriteStepValid(d: Disk, f: nat, rec: seq<byte>)
    requires ValidDisk(d) && f < d.cfCount && Fits(rec)
    ensures ValidDisk(BeforeWrite(d)) && End(BeforeWrite(d).cur.value) <= COMMITLOGMAXSZ
    ensures ValidDisk(WriteStep(d, f, rec))
  {
    FreshReflects(d.cfCount);
    WriteValid(BeforeWrite(d).cur.value, d.cfCount, f, rec);
  }

  lemma SyncValid(log: Log, cfCount: nat, f: nat)
    requires ValidLog(log, cfCount) && f < cfCount
    ensures ValidLog(Sync(log, f), cfCount)
  {
    SyncReflects(HeaderSize(cfCount), log.hdr, log.events, f);
    WithDirtyPadded(log.hdr, f, false);
    PosStep(HeaderSize(cfCount), log.events + [Synced(f)], |log.events|);
    assert (log.events + [Synced(f)])[..|log.events|] == log.events;
    assert (log.events + [Synced(f)])[..|log.events| + 1] == log.events + [Synced(f)];
  }

  lemma SyncStepValid(d: Disk, f: nat)
    requires ValidDisk(d) && d.cur.Some? && f < d.cfCount
    ensures ValidDisk(SyncStep(d, f))
  {
    SyncValid(d.cur.value, d.cfCount, f);
  }

  // ---- every run of the stage ----------------------------------------------------------------------

  /** One task of the stage; a sync needs a log to work on. */
  function TaskStep(d: Disk, e: Event): Option<Disk>
    requires d.cfCount < 0x8000_0000 && (d.cur.Some? ==> WellFormed(d.cur.value.hdr))
  {
    match e
    case Appended(f, rec) => Some(WriteStep(d, f, rec))
    case Synced(f) => if d.cur.None? then None else Some(SyncStep(d, f))
  }

  lemma TaskStepValid(d: Disk, e: Event)
    requires ValidDisk(d) && GoodTask(d.cfCount, e) && TaskStep(d, e).Some?
    ensures ValidDisk(TaskStep(d, e).value) && Whole(TaskStep(d, e).value) == Whole(d) + [e]
  {
    if e.Appended? {
      WriteStepValid(d, e.family, e.rec);
    } else {
      SyncStepValid(d, e.family);
    }
    WholeStep(d, e, TaskStep(d, e).value);
  }

  /** The files after the queue `q`, starting with none; a sync before the first write has no log to
      work on, and the stage does not survive it. */
  function Run(cfCount: nat, q: seq<Event>): (r: Option<Disk>)
    requires cfCount < 0x8000_0000
    ensures r.Some? ==> r.value.cfCount == cfCount && (r.value.cur.Some? ==> WellFormed(r.value.cur.value.hdr))
  {
    if q == [] then Some(Disk(cfCount, [], None))
    else
      match Run(cfCount, q[..|q| - 1])
      case None => None
      case Some(d) => TaskStep(d, q[|q| - 1])
  }

  predicate GoodTask(cfCount: nat, e: Event) {
    e.family < cfCount && (e.Appended? ==> Fits(e.rec))
  }

  /** Everything that was done to the files, in order. */
  function Whole(d: Disk): seq<Event> {
    WholeOf(d.pre) + if d.cur.Some? then d.cur.value.events else []
  }

  function WholeOf(pre: seq<Log>): seq<Event> {
    if pre == [] then [] else WholeOf(pre[1..]) + pre[0].events
  }

  lemma WholeStep(d: Disk, e: Event, d': Disk)
    requires d.cfCount < 0x8000_0000 && (d.cur.Some? ==> WellFormed(d.cur.value.hdr))
    requires match e case Appended(f, rec) => d' == WriteStep(d, f, rec) case Synced(f) => d.cur.Some? && d' == SyncStep(d, f)
    ensures Whole(d') == Whole(d) + [e]
  {
    if e.Appended? {
      var b := BeforeWrite(d);
      assert Whole(b) == Whole(d) by {
        if d.cur.Some? && End(d.cur.value) > COMMITLOGMAXSZ {
          assert ([d.cur.value] + d.pre)[1..] == d.pre;
        }
      }
      assert d'.pre == b.pre && d'.cur.value.events == b.cur.value.events + [e];
    }
  }

  ghost predicate GoodTasks(cfCount: nat, q: seq<Event>) {
    forall e :: e in q ==> GoodTask(cfCount, e)
  }

  lemma RunSnoc(cfCount: nat, init: seq<Event>, e: Event)
    requires cfCount < 0x8000_0000
    ensures Run(cfCount, init + [e]) == match Run(cfCount, init) case None => None case Some(d) => TaskStep(d, e)
  {
    assert (init + [e])[..|init|] == init;
  }

  /** Whatever the stage was given, its files stay right, and together tell what it was given. */
  lemma {:induction false} RunValid(cfCount: nat, q: seq<Event>)
    requires HeaderSize(cfCount) <= COMMITLOGMAXSZ && GoodTasks(cfCount, q)
    ensures Run(cfCount, q).Some? ==> ValidDisk(Run(cfCount, q).value) && Whole(Run(cfCount, q).value) == q
  {
    if q != [] {
      var init, e := q[..|q| - 1], q[|q| - 1];
      RunValid(cfCount, init);
      assert init + [e] == q;
      RunSnoc(cfCount, init, e);
      var r := Run(cfCount, init);
      if r.Some? && TaskStep(r.value, e).Some? {
        TaskStepValid(r.value, e);
      }
    }
  }

  /** Every record begins in the first `COMMITLOGMAXSZ` bytes of its file. */
  ghost predicate BeginsInTime(log: Log) {
    forall i :: 0 <= i < |log.events| && log.events[i].Appended? ==> Pos(HeaderSize(log.hdr.cfCount), log.events[..i]) <= COMMITLOGMAXSZ
  }

  /** Files are given up for being too long, and before the next record is written. */
  ghost predicate Rotated(d: Disk) {
    && (forall i :: 0 <= i < |d.pre| ==> End(d.pre[i]) > COMMITLOGMAXSZ && BeginsInTime(d.pre[i]))
    && (d.cur.Some? ==> BeginsInTime(d.cur.value))
  }

  lemma MoreEvents(log: Log, hdr: Header, e: Event)
    requires BeginsInTime(log) && hdr.cfCount == log.hdr.cfCount && (e.Appended? ==> End(log) <= COMMITLOGMAXSZ)
    ensures BeginsInTime(Log(hdr, log.events + [e]))
  {
    hide Pos, HeaderSize;
    var h := log.events + [e];
    forall i | 0 <= i < |h| && h[i].Appended? ensures Pos(HeaderSize(hdr.cfCount), h[..i]) <= COMMITLOGMAXSZ {
      assert h[..i] == log.events[..i];
      assert log.events[..|log.events|] == log.events;
    }
  }

  lemma StepRotates(d: Disk, e: Event)
    requires HeaderSize(d.cfCount) <= COMMITLOGMAXSZ && Rotated(d)
    requires d.cur.Some? ==> WellFormed(d.cur.value.hdr) && d.cur.value.hdr.cfCount == d.cfCount
    requires TaskStep(d, e).Some?
    ensures Rotated(TaskStep(d, e).value)
  {
    hide BeginsInTime, WithDirty, WithPos, FreshHeader;
    var b := if e.Appended? then BeforeWrite(d) else d;
    NoRecords(d.cfCount);
    assert b.cur.Some? && BeginsInTime(b.cur.value);
    MoreEvents(b.cur.value, TaskStep(d, e).value.cur.value.hdr, e);
  }

  lemma NoRecords(cfCount: nat)
    requires HeaderSize(cfCount) <= COMMITLOGMAXSZ
    ensures var log := Log(FreshHeader(cfCount), []); BeginsInTime(log) && End(log) <= COMMITLOGMAXSZ
  {
  }

  /** In every run, each file that was given up is longer than `COMMITLOGMAXSZ`, and no record begins behind that. */
  lemma {:induction false} RunRotates(cfCount: nat, q: seq<Event>)
    requires HeaderSize(cfCount) <= COMMITLOGMAXSZ && GoodTasks(cfCount, q)
    ensures Run(cfCount, q).Some? ==> Rotated(Run(cfCount, q).value)
  {
    hide Rotated, TaskStep, ValidLog;
    if q != [] {
      var init, e := q[..|q| - 1], q[|q| - 1];
      assert init + [e] == q;
      RunRotates(cfCount, init);
      RunValid(cfCount, init);
      RunSnoc(cfCount, init, e);
      var r := Run(cfCount, init);
      if r.Some? && TaskStep(r.value, e).Some? {
        CurrentOf(r.value);
        StepRotates(r.value, e);
      }
    } else {
      NoFiles(cfCount);
    }
  }

  lemma CurrentOf(d: Disk)
    requires ValidDisk(d)
    ensures d.cur.Some? ==> WellFormed(d.cur.value.hdr) && d.cur.value.hdr.cfCount == d.cfCount
  {
  }

  lemma NoFiles(cfCount: nat)
    ensures Rotated(Disk(cfCount, [], None))
  {
  }

  /** The stage survives its tasks exactly when the first of them, if any, is a write. */
  lemma {:induction false} RunSurvives(cfCount: nat, q: seq<Event>)
    requires cfCount < 0x8000_0000
    ensures Run(cfCount, q).Some? <==> q == [] || q[0].Appended?
    ensures Run(cfCount, q).Some? && q != [] ==> Run(cfCount, q).value.cur.Some?
  {
    if q != [] {
      RunSurvives(cfCount, q[..|q| - 1]);
    }
  }

  // ---- what the file says ------------------------------------------------------------------------------

  /** Records are found at their positions, whatever the header says. */
  lemma RecordAt(hdr: Header, h: seq<Event>, i: nat)
    requires WellFormed(hdr) && i < |h| && h[i].Appended?
    ensures Holds(LogBytes(hdr, Recs(h)), Pos(HeaderSize(hdr.cfCount), h[..i]), Frame(h[i].rec))
  {
    var head, a, x, b := Frame(EncHeader(hdr)), Recs(h[..i]), h[i].rec, Recs(h[i + 1..]);
    HeaderLength(hdr);
    RecsAround(h, i);
    FramesAround(a, x, b);
    Between(head, Frames(a), Frame(x), Frames(b));
  }

  lemma RecsAround(h: seq<Event>, i: nat)
    requires i < |h| && h[i].Appended?
    ensures Recs(h) == Recs(h[..i]) + ([h[i].rec] + Recs(h[i + 1..]))
  {
    assert h == h[..i] + h[i..];
    RecsAppend(h[..i], h[i..]);
    assert h[i..][1..] == h[i + 1..];
  }

  lemma FramesAround(a: seq<seq<byte>>, x: seq<byte>, b: seq<seq<byte>>)
    ensures Frames(a + ([x] + b)) == Frames(a) + (Frame(x) + Frames(b))
  {
    FramesAppend(a, [x] + b);
    assert ([x] + b)[1..] == b;
  }

  lemma Between(p: seq<byte>, a: seq<byte>, x: seq<byte>, b: seq<byte>)
    ensures Holds(p + (a + (x + b)), |p| + |a|, x)
  {
    assert forall k :: 0 <= k < |x| ==> (p + (a + (x + b)))[|p| + |a| + k] == x[k];
  }

  /** Every position in the header is 0 or a block boundary; the least dirty one is at or before every
      record that replay accepts, and a record is accepted exactly when no sync of its family followed it. */
  lemma HeaderDecides(log: Log, cfCount: nat, i: nat)
    requires ValidLog(log, cfCount) && i < |log.events| && log.events[i].Appended? && log.events[i].family < cfCount
    ensures var H, h, f := HeaderSize(cfCount), log.events, log.events[i].family;
            var p := Pos(H, h[..i]);
            && (Accepted(log.hdr, f, p) <==> Synced(f) !in h[i + 1..])
            && (Accepted(log.hdr, f, p) ==> FirstDirty(log.hdr).Some? && FirstDirty(log.hdr).value <= p)
            && (FirstDirty(log.hdr).Some? ==> FirstDirty(log.hdr).value == 0 || Boundary(H, h, FirstDirty(log.hdr).value))
  {
    var f := log.events[i].family;
    AcceptedIffNotSynced(HeaderSize(cfCount), log.hdr, log.events, i);
    var flags := Flags(log.hdr);
    if IsDirty(log.hdr, f) {
      LeastBelow(flags, log.hdr.posAt, cfCount, f);
    }
    if FirstDirty(log.hdr).Some? {
      var g := LeastHeld(flags, log.hdr.posAt, cfCount);
      LastSyncBoundary(HeaderSize(cfCount), log.events, g);
    }
  }

  /** So it is in every file of every run. */
  lemma EveryRunDecides(cfCount: nat, q: seq<Event>, log: Log, i: nat)
    requires HeaderSize(cfCount) <= COMMITLOGMAXSZ && GoodTasks(cfCount, q) && Run(cfCount, q).Some?
    requires log in Run(cfCount, q).value.pre || Run(cfCount, q).value.cur == Some(log)
    requires i < |log.events| && log.events[i].Appended? && log.events[i].family < cfCount
    ensures var h, f, p := log.events, log.events[i].family, Pos(HeaderSize(cfCount), log.events[..i]);
            && log.hdr.cfCount == cfCount && WellFormed(log.hdr)
            && Holds(LogBytes(log.hdr, Recs(h)), p, Frame(h[i].rec))
            && (Accepted(log.hdr, f, p) <==> Synced(f) !in h[i + 1..])
            && (Accepted(log.hdr, f, p) ==> FirstDirty(log.hdr).Some? && FirstDirty(log.hdr).value <= p)
  {
    RunValid(cfCount, q);
    assert ValidLog(log, cfCount);
    HeaderDecides(log, cfCount, i);
    RecordAt(log.hdr, log.events, i);
  }

  // ---- in the middle of a write ---------------------------------------------------------------------------

  /** The files once `writeCommitLog` has put the family's mark on disk and not yet the record. */
  function HalfWrite(d: Disk, f: nat): Disk
    requires d.cfCount < 0x8000_0000 && (d.cur.Some? ==> WellFormed(d.cur.value.hdr))
  {
    var d' := BeforeWrite(d);
    Disk(d'.cfCount, d'.pre, Some(Log(Marked(d'.cur.value.hdr, f), d'.cur.value.events)))
  }

  /** What the files may be when the process stops: between two tasks, after `beforeWrite`, or half way
      through a write. */
  ghost predicate Moment(cfCount: nat, q: seq<Event>, d: Disk)
    requires cfCount < 0x8000_0000
  {
    && Run(cfCount, q).Some?
    && (d == Run(cfCount, q).value || d == BeforeWrite(Run(cfCount, q).value)
        || exists f: nat :: f < cfCount && d == HalfWrite(Run(cfCount, q).value, f))
  }

  /** A header with one more family marked decides about the records as before. */
  lemma MarkedDecides(log: Log, cfCount: nat, f: nat, i: nat)
    requires ValidLog(log, cfCount) && f < cfCount
    requires i < |log.events| && log.events[i].Appended? && log.events[i].family < cfCount
    ensures var H, h, g, hdr := HeaderSize(cfCount), log.events, log.events[i].family, Marked(log.hdr, f);
            var p := Pos(H, h[..i]);
            && (Accepted(hdr, g, p) <==> Synced(g) !in h[i + 1..])
            && (Accepted(hdr, g, p) ==> FirstDirty(hdr).Some? && FirstDirty(hdr).value <= p)
            && (FirstDirty(hdr).Some? ==> FirstDirty(hdr).value == 0 || Boundary(H, h, FirstDirty(hdr).value))
  {
    hide Pos;
    var g, hdr := log.events[i].family, Marked(log.hdr, f);
    CoveredBeforeAppend(HeaderSize(cfCount), log.hdr, log.events, f, i);
    MarkedOnly(log.hdr, f, g);
    if IsDirty(hdr, g) {
      LeastBelow(Flags(hdr), hdr.posAt, cfCount, g);
    }
    if FirstDirty(hdr).Some? {
      var k := LeastHeld(Flags(hdr), hdr.posAt, cfCount);
      LastSyncBoundary(HeaderSize(cfCount), log.events, k);
    }
  }

  /** The record to come is covered before any of its bytes is written: replay would accept it at the end of the
      file, and would start at or before it. */
  lemma PendingIsCovered(cfCount: nat, q: seq<Event>, f: nat)
    requires HeaderSize(cfCount) <= COMMITLOGMAXSZ && GoodTasks(cfCount, q) && Run(cfCount, q).Some? && f < cfCount
    ensures var log := HalfWrite(Run(cfCount, q).value, f).cur.value;
            && log.hdr.cfCount == cfCount && WellFormed(log.hdr)
            && Accepted(log.hdr, f, End(log)) && FirstDirty(log.hdr).Some? && FirstDirty(log.hdr).value <= End(log)
  {
    hide Accepted, FirstDirty, Reflects, Run;
    RunValid(cfCount, q);
    FreshReflects(cfCount);
    MarkedCovers(BeforeWrite(Run(cfCount, q).value).cur.value, cfCount, f);
  }

  lemma MarkedCovers(log: Log, cfCount: nat, f: nat)
    requires ValidLog(log, cfCount) && f < cfCount
    ensures var hdr := Marked(log.hdr, f);
            Accepted(hdr, f, End(log)) && FirstDirty(hdr).Some? && FirstDirty(hdr).value <= End(log)
  {
    hide Pos;
    var H, h, hdr := HeaderSize(cfCount), log.events, Marked(log.hdr, f);
    MarkedOnly(log.hdr, f, f);
    assert h[..|h|] == h;
    LastSyncBefore(H, h, f, |h|);
    LeastBelow(Flags(hdr), hdr.posAt, cfCount, f);
  }

  lemma WellFormedOf(log: Log, cfCount: nat)
    requires ValidLog(log, cfCount)
    ensures WellFormed(log.hdr)
  {
  }

  /** At every moment of every run: each record in each file is whole at its place, accepted exactly when no sync
      of its family followed it, and not before the first dirty position. */
  lemma EveryMomentDecides(cfCount: nat, q: seq<Event>, d: Disk, log: Log, i: nat)
    requires HeaderSize(cfCount) <= COMMITLOGMAXSZ && GoodTasks(cfCount, q) && Moment(cfCount, q, d)
    requires log in d.pre || d.cur == Some(log)
    requires i < |log.events| && log.events[i].Appended? && log.events[i].family < cfCount
    ensures var h, f, p := log.events, log.events[i].family, Pos(HeaderSize(cfCount), log.events[..i]);
            && log.hdr.cfCount == cfCount && WellFormed(log.hdr)
            && Holds(LogBytes(log.hdr, Recs(h)), p, Frame(h[i].rec))
            && (Accepted(log.hdr, f, p) <==> Synced(f) !in h[i + 1..])
            && (Accepted(log.hdr, f, p) ==> FirstDirty(log.hdr).Some? && FirstDirty(log.hdr).value <= p)
  {
    hide Pos, LogBytes, Reflects, Accepted, FirstDirty;
    RunValid(cfCount, q);
    var d0 := Run(cfCount, q).value;
    FreshReflects(cfCount);
    assert ValidDisk(BeforeWrite(d0));
    if ValidLog(log, cfCount) {
      WellFormedOf(log, cfCount);
      HeaderDecides(log, cfCount, i);
    } else {
      var f: nat :| f < cfCount && d == HalfWrite(d0, f);
      MarkedDecides(BeforeWrite(d0).cur.value, cfCount, f, i);
    }
    RecordAt(log.hdr, log.events, i);
  }
}
