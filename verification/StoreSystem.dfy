/** The stores of all families, their memtables, the queue of the commit-log thread and the log files, as
    one machine (insertCFStore, forceCFSFlush, db/columnFamilyStore.c; the handlers of db/commitLog.c). */
module StoreSystem {
  import opened CStrings
  import opened Columns
  import opened Codec
  import opened MemTables
  import opened Files
  import opened LogHeaders
  import opened LogHistory
  import opened CommitLogs
  import opened Recovery
  import opened HeaderBlocks

  /** Each family's current memtable; the files; what was dispatched to the commit-log thread and not done yet. */
  datatype Sys = Sys(mts: seq<MemT>, disk: Disk, queue: seq<Event>)

  datatype Action = InsertRow(m: Mutation) | ForceFlush(family: nat) | LogStep

  function Empty(cfCount: nat): Sys {
    Sys(seq(cfCount, _ => EMPTY), Disk(cfCount, [], None), [])
  }

  function RecordOf(m: Mutation): seq<byte> {
    Seal(EncMutation(m))
  }

  ghost predicate GoodAction(cat: Catalogue, cfCount: nat, a: Action) {
    match a
    case InsertRow(m) => GoodMutation(cat, m) && FamilyOf(cat, m) < cfCount && Fits(RecordOf(m))
    case ForceFlush(f) => f < cfCount
    case LogStep => true
  }

  ghost predicate Shape(s: Sys) {
    && |s.mts| == s.disk.cfCount && s.disk.cfCount < 0x8000_0000
    && (s.disk.cur.Some? ==> WellFormed(s.disk.cur.value.hdr))
  }

  /** One step. An insert dispatches the write of its record, goes into the memtable, and if that is now too
      full swaps it for an empty one and dispatches a sync. None: the commit-log thread has nothing to do,
      or is to sync a log that does not exist. */
  function Step(cat: Catalogue, s: Sys, a: Action): Option<Sys>
    requires Shape(s) && GoodAction(cat, s.disk.cfCount, a)
  {
    match a
    case InsertRow(m) =>
      var f := FamilyOf(cat, m);
      var mt := Insert(s.mts[f], m.key, m.cf);
      var queue := s.queue + [Appended(f, RecordOf(m))];
      Some(if NeedsFlush(mt) then Sys(s.mts[f := EMPTY], s.disk, queue + [Synced(f)]) else Sys(s.mts[f := mt], s.disk, queue))
    case ForceFlush(f) => Some(Sys(s.mts[f := EMPTY], s.disk, s.queue + [Synced(f)]))
    case LogStep =>
      if s.queue == [] then None
      else
        match TaskStep(s.disk, s.queue[0])
        case None => None
        case Some(d) => Some(Sys(s.mts, d, s.queue[1..]))
  }

  // ---- what every step keeps --------------------------------------------------------------------------

  function MutationsOf(cat: Catalogue, recs: seq<seq<byte>>): seq<Mutation> {
    seq(|recs|, i requires 0 <= i < |recs| => MutationOf(cat, recs[i]))
  }

  /** No beginning of `ms` fills a memtable. */
  ghost predicate NeverFull(ms: seq<Mutation>) {
    forall k :: 0 <= k <= |ms| ==> !NeedsFlush(Fold(ms[..k]))
  }

  /** The memtable of `f` is what the records of `f` that no sync follows make of an empty one. */
  ghost predicate Tracks(cat: Catalogue, mt: MemT, h: seq<Event>, f: nat) {
    var ms := MutationsOf(cat, Survivors(h, f));
    mt == Fold(ms) && NeverFull(ms)
  }

  /** All that was ever dispatched: done, then still to do. */
  function Dispatched(s: Sys): seq<Event> {
    Whole(s.disk) + s.queue
  }

  ghost predicate AllTrack(cat: Catalogue, mts: seq<MemT>, h: seq<Event>) {
    forall f: nat :: f < |mts| ==> Tracks(cat, mts[f], h, f)
  }

  ghost predicate Inv(cat: Catalogue, s: Sys) {
    && Shape(s) && ValidDisk(s.disk)
    && GoodRecords(cat, s.disk.cfCount, Dispatched(s)) && GoodTasks(s.disk.cfCount, s.queue)
    && AllTrack(cat, s.mts, Dispatched(s))
  }

  lemma RecordOfIsRecord(cat: Catalogue, cfCount: nat, m: Mutation)
    requires GoodAction(cat, cfCount, InsertRow(m))
    ensures IsRecord(cat, FamilyOf(cat, m), RecordOf(m), m) && MutationOf(cat, RecordOf(m)) == m
  {
    hide EncMutation, GoodFamily, Crc32.Crc, DecRecord, FamilyOf;
    RecordRoundTrip(cat, FamilyOf(cat, m), RecordOf(m), m, RecordOf(m));
  }

  lemma MutationsSnoc(cat: Catalogue, recs: seq<seq<byte>>, rec: seq<byte>)
    ensures MutationsOf(cat, recs + [rec]) == MutationsOf(cat, recs) + [MutationOf(cat, rec)]
  {
    hide MutationOf;
  }

  lemma NeverFullSnoc(ms: seq<Mutation>, m: Mutation)
    requires NeverFull(ms) && !NeedsFlush(Fold(ms + [m]))
    ensures NeverFull(ms + [m])
  {
    hide Fold, NeedsFlush;
    forall k | 0 <= k <= |ms| + 1 ensures !NeedsFlush(Fold((ms + [m])[..k])) {
      if k <= |ms| {
        assert (ms + [m])[..k] == ms[..k];
      } else {
        assert (ms + [m])[..k] == ms + [m];
      }
    }
  }

  /** A record of `f` that leaves the memtable below the threshold. */
  lemma TracksInsert(cat: Catalogue, mt: MemT, h: seq<Event>, f: nat, m: Mutation)
    requires Tracks(cat, mt, h, f) && MutationOf(cat, RecordOf(m)) == m && !NeedsFlush(Insert(mt, m.key, m.cf))
    ensures Tracks(cat, Insert(mt, m.key, m.cf), h + [Appended(f, RecordOf(m))], f)
  {
    hide MutationOf, RecordOf, NeedsFlush, Fold, Insert, NeverFull, Survivors;
    var recs := Survivors(h, f);
    SurvivorsSnoc(h, Appended(f, RecordOf(m)), f);
    MutationsSnoc(cat, recs, RecordOf(m));
    FoldSnoc(MutationsOf(cat, recs), m);
    NeverFullSnoc(MutationsOf(cat, recs), m);
  }

  lemma TracksFlush(cat: Catalogue, h: seq<Event>, f: nat)
    ensures Tracks(cat, EMPTY, h + [Synced(f)], f)
  {
    hide MutationOf, Survivors;
    SurvivorsSnoc(h, Synced(f), f);
  }

  lemma TracksOther(cat: Catalogue, mt: MemT, h: seq<Event>, e: Event, f: nat)
    requires Tracks(cat, mt, h, f) && e.family != f
    ensures Tracks(cat, mt, h + [e], f)
  {
    hide MutationOf, Survivors;
    SurvivorsSnoc(h, e, f);
  }

  lemma GoodRecordsSnoc(cat: Catalogue, cfCount: nat, h: seq<Event>, e: Event)
    requires GoodRecords(cat, cfCount, h) && e.family < cfCount
    requires e.Appended? ==> IsRecord(cat, e.family, e.rec, MutationOf(cat, e.rec))
    ensures GoodRecords(cat, cfCount, h + [e])
  {
    hide IsRecord, MutationOf;
  }

  /** Every memtable after `e` was dispatched, given the one of its family. */
  lemma AllTrackSnoc(cat: Catalogue, mts: seq<MemT>, h: seq<Event>, e: Event, mts': seq<MemT>, mt: MemT)
    requires e.family < |mts| && AllTrack(cat, mts, h) && Tracks(cat, mt, h + [e], e.family) && mts' == mts[e.family := mt]
    ensures AllTrack(cat, mts', h + [e])
  {
    hide Tracks;
    forall f: nat | f < |mts'| ensures Tracks(cat, mts'[f], h + [e], f) {
      if f != e.family { TracksOther(cat, mts[f], h, e, f); }
    }
  }

  lemma InsertKeeps(cat: Catalogue, s: Sys, m: Mutation)
    requires Inv(cat, s) && GoodAction(cat, s.disk.cfCount, InsertRow(m))
    ensures Inv(cat, Step(cat, s, InsertRow(m)).value)
  {
    hide Tracks, IsRecord, MutationOf, RecordOf, Insert, NeedsFlush, ValidDisk, Whole, Fits, GoodFamily;
    var f, rec, h := FamilyOf(cat, m), RecordOf(m), Dispatched(s);
    var e := Appended(f, rec);
    var mt := Insert(s.mts[f], m.key, m.cf);
    RecordOfIsRecord(cat, s.disk.cfCount, m);
    GoodRecordsSnoc(cat, s.disk.cfCount, h, e);
    assert Whole(s.disk) + (s.queue + [e]) == h + [e];
    if NeedsFlush(mt) {
      FlushTracks(cat, s.mts, h, e, s.mts[f := EMPTY]);
      GoodRecordsSnoc(cat, s.disk.cfCount, h + [e], Synced(f));
      assert Whole(s.disk) + (s.queue + [e] + [Synced(f)]) == h + [e] + [Synced(f)];
    } else {
      TracksInsert(cat, s.mts[f], h, f, m);
      AllTrackSnoc(cat, s.mts, h, e, s.mts[f := mt], mt);
    }
  }

  /** The record that filled the memtable is synced away with the others. */
  lemma FlushTracks(cat: Catalogue, mts: seq<MemT>, h: seq<Event>, e: Event, mts': seq<MemT>)
    requires e.family < |mts| && AllTrack(cat, mts, h) && mts' == mts[e.family := EMPTY]
    ensures AllTrack(cat, mts', h + [e] + [Synced(e.family)])
  {
    hide Tracks;
    forall f: nat | f < |mts'| ensures Tracks(cat, mts'[f], h + [e] + [Synced(e.family)], f) {
      if f == e.family {
        TracksFlush(cat, h + [e], f);
      } else {
        TracksOther(cat, mts[f], h, e, f);
        TracksOther(cat, mts[f], h + [e], Synced(e.family), f);
      }
    }
  }

  lemma ForceFlushKeeps(cat: Catalogue, s: Sys, f: nat)
    requires Inv(cat, s) && f < s.disk.cfCount
    ensures Inv(cat, Step(cat, s, ForceFlush(f)).value)
  {
    hide Tracks, IsRecord, MutationOf, ValidDisk, Whole;
    var h := Dispatched(s);
    TracksFlush(cat, h, f);
    AllTrackSnoc(cat, s.mts, h, Synced(f), s.mts[f := EMPTY], EMPTY);
    GoodRecordsSnoc(cat, s.disk.cfCount, h, Synced(f));
    assert Whole(s.disk) + (s.queue + [Synced(f)]) == h + [Synced(f)];
  }

  lemma LogStepKeeps(cat: Catalogue, s: Sys)
    requires Inv(cat, s) && Step(cat, s, LogStep).Some?
    ensures Inv(cat, Step(cat, s, LogStep).value)
  {
    hide Tracks, IsRecord, MutationOf, Whole, Fits, GoodRecords, WriteStep, SyncStep;
    var e, d := s.queue[0], s.disk;
    assert GoodTask(d.cfCount, e);
    TaskStepValid(d, e);
    TaskShape(d, e);
    assert Whole(d) + s.queue == Whole(d) + [e] + s.queue[1..];
  }

  lemma TaskShape(d: Disk, e: Event)
    requires ValidDisk(d) && GoodTask(d.cfCount, e) && TaskStep(d, e).Some?
    ensures TaskStep(d, e).value.cfCount == d.cfCount
    ensures TaskStep(d, e).value.cur.Some? ==> WellFormed(TaskStep(d, e).value.cur.value.hdr)
  {
  }

  /** The state after a run of actions. */
  ghost predicate Reaches(cat: Catalogue, cfCount: nat, actions: seq<Action>, s: Sys)
    decreases |actions|
  {
    if actions == [] then s == Empty(cfCount)
    else
      exists before: Sys :: Reaches(cat, cfCount, actions[..|actions| - 1], before) && Shape(before) &&
                            GoodAction(cat, before.disk.cfCount, actions[|actions| - 1]) &&
                            Step(cat, before, actions[|actions| - 1]) == Some(s)
  }

  lemma {:induction false} EveryRun(cat: Catalogue, cfCount: nat, actions: seq<Action>, s: Sys)
    requires HeaderSize(cfCount) <= COMMITLOGMAXSZ && Reaches(cat, cfCount, actions, s)
    ensures Inv(cat, s) && s.disk.cfCount == cfCount
    decreases |actions|
  {
    hide Tracks, ValidDisk, Step, GoodRecords, IsRecord;
    if actions == [] {
      EmptyInv(cat, cfCount);
    } else {
      var init, a := actions[..|actions| - 1], actions[|actions| - 1];
      var before: Sys :| Reaches(cat, cfCount, init, before) && Shape(before) &&
                         GoodAction(cat, before.disk.cfCount, a) && Step(cat, before, a) == Some(s);
      EveryRun(cat, cfCount, init, before);
      SameFamilies(cat, before, a);
      match a {
        case InsertRow(m) => InsertKeeps(cat, before, m);
        case ForceFlush(f) => ForceFlushKeeps(cat, before, f);
        case LogStep => LogStepKeeps(cat, before);
      }
    }
  }

  lemma EmptyInv(cat: Catalogue, cfCount: nat)
    requires HeaderSize(cfCount) <= COMMITLOGMAXSZ
    ensures Inv(cat, Empty(cfCount))
  {
    hide Tracks;
    assert Dispatched(Empty(cfCount)) == [];
    forall f: nat | f < cfCount ensures Tracks(cat, EMPTY, [], f) { EmptyTracks(cat, f); }
  }

  lemma EmptyTracks(cat: Catalogue, f: nat)
    ensures Tracks(cat, EMPTY, [], f)
  {
    hide MutationOf;
    assert MutationsOf(cat, Survivors([], f)) == [];
  }

  lemma SameFamilies(cat: Catalogue, s: Sys, a: Action)
    requires Shape(s) && GoodAction(cat, s.disk.cfCount, a) && Step(cat, s, a).Some?
    ensures Step(cat, s, a).value.disk.cfCount == s.disk.cfCount
  {
  }

  // ---- recovery ---------------------------------------------------------------------------------------

  /** The mutations of family `f` among `ms`. */
  function OfFamily(cat: Catalogue, ms: seq<Mutation>, f: nat): seq<Mutation> {
    if ms == [] then []
    else
      var m := ms[|ms| - 1];
      OfFamily(cat, ms[..|ms| - 1], f) + if (m.keyspace, m.cfName) in cat && FamilyOf(cat, m) == f then [m] else []
  }

  lemma {:induction false} OfFamilyAppend(cat: Catalogue, a: seq<Mutation>, b: seq<Mutation>, f: nat)
    ensures OfFamily(cat, a + b, f) == OfFamily(cat, a, f) + OfFamily(cat, b, f)
    decreases b
  {
    if b == [] {
      assert a + b == a;
    } else {
      var n := |b| - 1;
      assert (a + b)[..|a| + n] == a + b[..n] && (a + b)[|a| + n] == b[n];
      OfFamilyAppend(cat, a, b[..n], f);
    }
  }

  lemma GoodRest(cat: Catalogue, cfCount: nat, h: seq<Event>)
    requires GoodRecords(cat, cfCount, h) && h != []
    ensures GoodRecords(cat, cfCount, h[1..])
  {
    hide IsRecord, MutationOf;
  }

  lemma NothingOfFamily(cat: Catalogue, h: seq<Event>, f: nat)
    requires h == []
    ensures OfFamily(cat, Mutations(cat, Kept(h)), f) == MutationsOf(cat, Survivors(h, f)) == []
  {
  }

  /** The kept records of a family, in the order of the file, are its survivors. */
  lemma {:induction false} KeptOfFamily(cat: Catalogue, cfCount: nat, h: seq<Event>, f: nat)
    requires GoodRecords(cat, cfCount, h)
    ensures OfFamily(cat, Mutations(cat, Kept(h)), f) == MutationsOf(cat, Survivors(h, f))
  {
    hide MutationOf, GoodRecords, OfFamily, Survivors, Mutations, MutationsOf, Kept, FamilyOf;
    if h == [] {
      NothingOfFamily(cat, h, f);
    } else {
      var rest := h[1..];
      GoodRest(cat, cfCount, h);
      KeptOfFamily(cat, cfCount, rest, f);
      var first := if h[0].Appended? && Synced(h[0].family) !in rest then [MutationOf(cat, h[0].rec)] else [];
      FirstKept(cat, h);
      OfFamilyAppend(cat, first, Mutations(cat, Kept(rest)), f);
      FirstSurvivor(cat, h, f);
      OneOfFamily(cat, first, f);
      if first != [] { KnownRecord(cat, cfCount, h); }
    }
  }

  lemma KnownRecord(cat: Catalogue, cfCount: nat, h: seq<Event>)
    requires GoodRecords(cat, cfCount, h) && h != [] && h[0].Appended?
    ensures var m := MutationOf(cat, h[0].rec); (m.keyspace, m.cfName) in cat && FamilyOf(cat, m) == h[0].family
  {
    hide MutationOf, Fits, Seal;
  }

  lemma FirstKept(cat: Catalogue, h: seq<Event>)
    requires h != []
    ensures Mutations(cat, Kept(h)) ==
            (if h[0].Appended? && Synced(h[0].family) !in h[1..] then [MutationOf(cat, h[0].rec)] else []) + Mutations(cat, Kept(h[1..]))
  {
    hide Kept, Mutations, MutationOf;
    NextKept(cat, h, 0);
    assert h[0..] == h;
  }

  lemma FirstSurvivor(cat: Catalogue, h: seq<Event>, f: nat)
    requires h != []
    ensures MutationsOf(cat, Survivors(h, f)) ==
            (if h[0].Appended? && h[0].family == f && Synced(f) !in h[1..] then [MutationOf(cat, h[0].rec)] else [])
            + MutationsOf(cat, Survivors(h[1..], f))
  {
    hide MutationOf, Survivors;
    var first := if h[0].Appended? && h[0].family == f && Synced(f) !in h[1..] then [h[0].rec] else [];
    SurvivorsHead(h, f);
    MutationsAppend(cat, first, Survivors(h[1..], f));
  }

  lemma SurvivorsHead(h: seq<Event>, f: nat)
    requires h != []
    ensures Survivors(h, f) ==
            (if h[0].Appended? && h[0].family == f && Synced(f) !in h[1..] then [h[0].rec] else []) + Survivors(h[1..], f)
  {
  }

  lemma MutationsAppend(cat: Catalogue, a: seq<seq<byte>>, b: seq<seq<byte>>)
    ensures MutationsOf(cat, a + b) == MutationsOf(cat, a) + MutationsOf(cat, b)
  {
    hide MutationOf;
  }

  lemma OneOfFamily(cat: Catalogue, first: seq<Mutation>, f: nat)
    requires |first| <= 1
    ensures OfFamily(cat, first, f) ==
            if first != [] && (first[0].keyspace, first[0].cfName) in cat && FamilyOf(cat, first[0]) == f then first else []
  {
    if first != [] {
      assert first[..0] == [] && first == [first[0]];
    }
  }

  /** Inserting mutations into the stores, one after the other. */
  ghost function Replay(cat: Catalogue, s: Sys, ms: seq<Mutation>): (r: Sys)
    requires Shape(s) && forall m :: m in ms ==> GoodAction(cat, s.disk.cfCount, InsertRow(m))
    ensures Shape(r) && r.disk == s.disk
  {
    if ms == [] then s else Step(cat, Replay(cat, s, ms[..|ms| - 1]), InsertRow(ms[|ms| - 1])).value
  }

  /** As long as no memtable fills up, each becomes what its mutations make of it, and no flush is dispatched. */
  lemma {:induction false} ReplayFolds(cat: Catalogue, cfCount: nat, ms: seq<Mutation>)
    requires cfCount < 0x8000_0000 && forall m :: m in ms ==> GoodAction(cat, cfCount, InsertRow(m))
    requires forall f: nat :: f < cfCount ==> NeverFull(OfFamily(cat, ms, f))
    ensures var r := Replay(cat, Empty(cfCount), ms);
            && (forall f: nat :: f < cfCount ==> r.mts[f] == Fold(OfFamily(cat, ms, f)))
            && (forall e :: e in r.queue ==> e.Appended?)
  {
    hide Step, GoodAction, NeverFull, Fold;
    if ms != [] {
      var init, m := ms[..|ms| - 1], ms[|ms| - 1];
      assert init + [m] == ms && forall x :: x in init ==> x in ms;
      forall f: nat | f < cfCount ensures NeverFull(OfFamily(cat, init, f)) {
        NeverFullPrefix(OfFamily(cat, init, f), OfFamily(cat, ms, f));
      }
      ReplayFolds(cat, cfCount, init);
      ReplayOne(cat, Replay(cat, Empty(cfCount), init), init, m);
    } else {
      NothingFolded();
    }
  }

  lemma NothingFolded()
    ensures Fold([]) == EMPTY
  {
  }

  /** One more mutation that fills no memtable. */
  lemma ReplayOne(cat: Catalogue, s: Sys, init: seq<Mutation>, m: Mutation)
    requires Shape(s) && GoodAction(cat, s.disk.cfCount, InsertRow(m))
    requires forall f: nat :: f < s.disk.cfCount ==> s.mts[f] == Fold(OfFamily(cat, init, f))
    requires forall f: nat :: f < s.disk.cfCount ==> NeverFull(OfFamily(cat, init + [m], f))
    requires forall e :: e in s.queue ==> e.Appended?
    ensures Step(cat, s, InsertRow(m)).Some?
    ensures var r := Step(cat, s, InsertRow(m)).value;
            && |r.mts| == |s.mts| && (forall f: nat :: f < s.disk.cfCount ==> r.mts[f] == Fold(OfFamily(cat, init + [m], f)))
            && (forall e :: e in r.queue ==> e.Appended?)
  {
    hide Insert, NeedsFlush, RecordOf, NeverFull, GoodMutation, Fits, Fold;
    assert (m.keyspace, m.cfName) in cat by { KnownFamily(cat, s.disk.cfCount, m); }
    var f := FamilyOf(cat, m);
    assert (init + [m])[..|init|] == init;
    assert OfFamily(cat, init + [m], f) == OfFamily(cat, init, f) + [m];
    FoldSnoc(OfFamily(cat, init, f), m);
    NeverFullWhole(OfFamily(cat, init + [m], f));
    forall g: nat | g < s.disk.cfCount && g != f ensures OfFamily(cat, init + [m], g) == OfFamily(cat, init, g) {
      assert OfFamily(cat, init, g) + [] == OfFamily(cat, init, g);
    }
  }

  lemma KnownFamily(cat: Catalogue, cfCount: nat, m: Mutation)
    requires GoodAction(cat, cfCount, InsertRow(m))
    ensures (m.keyspace, m.cfName) in cat && FamilyOf(cat, m) < cfCount
  {
  }

  lemma NeverFullPrefix(a: seq<Mutation>, b: seq<Mutation>)
    requires NeverFull(b) && a <= b
    ensures NeverFull(a)
  {
    hide Fold, NeedsFlush;
    forall k | 0 <= k <= |a| ensures !NeedsFlush(Fold(a[..k])) {
      assert a[..k] == b[..k];
    }
  }

  lemma NeverFullWhole(ms: seq<Mutation>)
    requires NeverFull(ms)
    ensures !NeedsFlush(Fold(ms))
  {
    assert ms[..|ms|] == ms;
  }

  /** Nothing is dispatched that is not done, and one file holds everything. */
  ghost predicate Drained(s: Sys, log: Log) {
    s.queue == [] && s.disk.pre == [] && s.disk.cur == Some(log)
  }

  lemma DrainedLog(cat: Catalogue, s: Sys, log: Log)
    requires Inv(cat, s) && Drained(s, log)
    ensures GoodLog(cat, s.disk.cfCount, log) && Dispatched(s) == log.events && log.hdr.cfCount == s.disk.cfCount
  {
    hide Tracks, IsRecord, ValidLog;
    assert WholeOf(s.disk.pre) == [];
    assert [] + log.events + [] == log.events;
    assert log.hdr.cfCount == s.disk.cfCount by { SameCount(s.disk, log); }
  }

  lemma SameCount(d: Disk, log: Log)
    requires ValidDisk(d) && d.cur == Some(log)
    ensures log.hdr.cfCount == d.cfCount
  {
  }

  lemma KeptAreGood(cat: Catalogue, cfCount: nat, h: seq<Event>)
    requires GoodRecords(cat, cfCount, h)
    ensures forall m :: m in Mutations(cat, Kept(h)) ==> GoodAction(cat, cfCount, InsertRow(m))
  {
    hide MutationOf, IsRecord, Kept, Mutations, GoodAction;
    KeptAreRecords(h);
    var kept := Kept(h);
    forall i | 0 <= i < |kept|
      ensures kept[i].family < cfCount
      ensures IsRecord(cat, kept[i].family, kept[i].rec, MutationOf(cat, kept[i].rec))
    {
      assert kept[i] in kept;
      var j :| 0 <= j < |h| && h[j] == kept[i];
    }
    MutationsGood(cat, cfCount, kept);
  }

  lemma {:induction false} MutationsGood(cat: Catalogue, cfCount: nat, es: seq<Event>)
    requires GoodRecords(cat, cfCount, es)
    ensures forall m :: m in Mutations(cat, es) ==> GoodAction(cat, cfCount, InsertRow(m))
  {
    hide MutationOf, Seal, GoodMutation, Fits;
    if es != [] {
      MutationsGood(cat, cfCount, es[1..]);
    }
  }

  /** Inserting the kept records of the one log gives every family its current memtable back, ties and all,
      and fills none of them. */
  lemma KeptRestore(cat: Catalogue, s: Sys, log: Log)
    requires Inv(cat, s) && Drained(s, log)
    ensures forall m :: m in Mutations(cat, Kept(log.events)) ==> GoodAction(cat, s.disk.cfCount, InsertRow(m))
    ensures var r := Replay(cat, Empty(s.disk.cfCount), Mutations(cat, Kept(log.events)));
            r.mts == s.mts && forall e :: e in r.queue ==> e.Appended?
  {
    hide Fold, NeverFull, GoodMutation, Mutations, Survivors, Kept, IsRecord, Reflects;
    var cfCount, ms := s.disk.cfCount, Mutations(cat, Kept(log.events));
    DrainedLog(cat, s, log);
    KeptAreGood(cat, cfCount, log.events);
    forall f: nat | f < cfCount ensures NeverFull(OfFamily(cat, ms, f)) && s.mts[f] == Fold(OfFamily(cat, ms, f)) {
      KeptOfFamily(cat, cfCount, log.events, f);
      assert Tracks(cat, s.mts[f], Dispatched(s), f);
    }
    ReplayFolds(cat, cfCount, ms);
  }

  /** Reading the records of the one log through the codec, from behind the header, restores every memtable. */
  lemma ScanRestores(cat: Catalogue, s: Sys, log: Log, file: seq<byte>, seen: seq<seq<byte>>, size: nat)
    requires Inv(cat, s) && Drained(s, log) && file == LogBytes(log.hdr, Recs(log.events))
    requires Saw(cat, file, HeaderSize(s.disk.cfCount), seen, size) && WellFormed(log.hdr)
    ensures var (ret, ms) := Scan(cat, log.hdr, file, HeaderSize(s.disk.cfCount), seen);
            && ret == Returns(0) && (forall m :: m in ms ==> GoodAction(cat, s.disk.cfCount, InsertRow(m)))
            && Replay(cat, Empty(s.disk.cfCount), ms).mts == s.mts
            && forall e :: e in Replay(cat, Empty(s.disk.cfCount), ms).queue ==> e.Appended?
  {
    hide LogBytes, Mutations, Kept, Replay, Scan, IsRecord, Saw, Reflects, Tracks, GoodMutation;
    DrainedLog(cat, s, log);
    StartOfRecords(HeaderSize(s.disk.cfCount), log.events);
    ScanFromBoundary(cat, log.hdr, log.events, 0, file, seen, size);
    KeptRestore(cat, s, log);
  }

  /** What `auxilary_recover` itself restores: every memtable exactly when each family that was written in
      the file was synced in it, too; otherwise it inserts nothing before it returns -1 or leaves its buffer. */
  lemma RecoverRestoresIffSynced(cat: Catalogue, s: Sys, log: Log, file: seq<byte>, seen: seq<seq<byte>>)
    requires Inv(cat, s) && Drained(s, log) && file == LogBytes(log.hdr, Recs(log.events)) && WellFormed(log.hdr)
    requires s.disk.cfCount < 2040 && NoOddKeyspace(cat, s.disk.cfCount) && RecoverSaw(cat, log.hdr, file, seen)
    ensures forall m :: m in Recover(cat, log.hdr, file, seen).1 ==> GoodAction(cat, s.disk.cfCount, InsertRow(m))
    ensures Replay(cat, Empty(s.disk.cfCount), Recover(cat, log.hdr, file, seen).1).mts == s.mts <==> AllSynced(log.events)
    ensures Recover(cat, log.hdr, file, seen).0 == Returns(0) <==> AllSynced(log.events)
  {
    hide LogBytes, Mutations, Kept, Scan, Recover, IsRecord, Saw, Reflects, Tracks, GoodMutation, RecoverSaw, Step;
    DrainedLog(cat, s, log);
    RecoversIffSynced(cat, s.disk.cfCount, log, file, seen);
    KeptRestore(cat, s, log);
    if !AllSynced(log.events) {
      NotEmpty(cat, s, log);
    }
  }

  /** A family written and never synced has something in its memtable. */
  lemma NotEmpty(cat: Catalogue, s: Sys, log: Log)
    requires Inv(cat, s) && Drained(s, log) && !AllSynced(log.events)
    ensures s.mts != Empty(s.disk.cfCount).mts
  {
    hide IsRecord, Reflects, MutationOf, NeverFull, Insert;
    DrainedLog(cat, s, log);
    var h := log.events;
    var i :| 0 <= i < |h| && h[i].Appended? && Synced(h[i].family) !in h;
    var f := h[i].family;
    SomeSurvivor(h, f, i);
    assert Tracks(cat, s.mts[f], Dispatched(s), f);
    FoldNotEmpty(MutationsOf(cat, Survivors(h, f)));
  }

  lemma FoldNotEmpty(ms: seq<Mutation>)
    requires ms != []
    ensures Fold(ms) != EMPTY
  {
    assert ms[|ms| - 1].key in Fold(ms).rows;
  }

  const ONE_FAMILY: Catalogue := map[([107], [102]) := Metadata([107], [102], 0, true)]
  const FIRST_ROW: Mutation := Mutation([107], [97], [102], Family(0, 0, []))

  lemma FirstRowFits()
    ensures GoodAction(ONE_FAMILY, 1, InsertRow(FIRST_ROW))
  {
    hide Crc32.Crc, GetByte;
    assert |EncMutation(FIRST_ROW)| == 30;
    assert |RecordOf(FIRST_ROW)| == 34;
  }

  lemma FirstRun() returns (s: Sys, log: Log)
    ensures Reaches(ONE_FAMILY, 1, [InsertRow(FIRST_ROW), LogStep], s) && Drained(s, log) && s.disk.cfCount == 1
    ensures log.events == [Appended(0, RecordOf(FIRST_ROW))]
  {
    hide EncMutation, RecordOf, GoodMutation, Fits;
    FirstRowFits();
    var s0 := Empty(1);
    var f := FamilyOf(ONE_FAMILY, FIRST_ROW);
    assert f == 0;
    var s1 := Step(ONE_FAMILY, s0, InsertRow(FIRST_ROW)).value;
    assert !NeedsFlush(Insert(EMPTY, FIRST_ROW.key, FIRST_ROW.cf));
    assert s1.queue == [Appended(0, RecordOf(FIRST_ROW))];
    s := Step(ONE_FAMILY, s1, LogStep).value;
    log := s.disk.cur.value;
    var actions := [InsertRow(FIRST_ROW), LogStep];
    assert actions[..1] == [InsertRow(FIRST_ROW)] && [InsertRow(FIRST_ROW)][..0] == [];
    assert Reaches(ONE_FAMILY, 1, [], s0);
    assert Reaches(ONE_FAMILY, 1, [InsertRow(FIRST_ROW)], s1);
    assert s1.queue[1..] == [];
  }

  /** One insert, written to the log, and a crash: the memtable had the row, and recovery, sent to the header block,
      leaves its buffer before it inserts anything. */
  lemma FirstCrashLosesAll() returns (s: Sys, log: Log, file: seq<byte>, seen: seq<seq<byte>>)
    ensures Reaches(ONE_FAMILY, 1, [InsertRow(FIRST_ROW), LogStep], s) && Drained(s, log) && WellFormed(log.hdr)
    ensures file == LogBytes(log.hdr, Recs(log.events)) && RecoverSaw(ONE_FAMILY, log.hdr, file, seen)
    ensures s.mts != Empty(1).mts && Recover(ONE_FAMILY, log.hdr, file, seen) == (Leaves, [])
  {
    hide Reaches, Inv, Drained, GoodLog, RecordOf, Recover, RecoverSaw, LogBytes, ONE_FAMILY, FIRST_ROW;
    s, log := FirstRun();
    EveryRun(ONE_FAMILY, 1, [InsertRow(FIRST_ROW), LogStep], s);
    DrainedLog(ONE_FAMILY, s, log);
    assert !AllSynced(log.events) by { assert log.events[0].Appended?; }
    NotEmpty(ONE_FAMILY, s, log);
    file, seen := OneRecordLeaves(log);
  }

  /** Recovery of a log of one family with one record and no sync. */
  lemma OneRecordLeaves(log: Log) returns (file: seq<byte>, seen: seq<seq<byte>>)
    requires GoodLog(ONE_FAMILY, 1, log) && |log.events| == 1 && log.events[0].Appended? && log.events[0].family == 0
    ensures WellFormed(log.hdr) && file == LogBytes(log.hdr, Recs(log.events))
    ensures RecoverSaw(ONE_FAMILY, log.hdr, file, seen) && Recover(ONE_FAMILY, log.hdr, file, seen) == (Leaves, [])
  {
    hide LogBytes, EncHeader, IsRecord, Reflects, Recover, RecoverSaw, DecRecord, FirstDirty;
    UnderValid(log, 1);
    FirstDirtyZero(log, 1);
    file := LogBytes(log.hdr, Recs(log.events));
    seen := FirstSeen(log);
    assert forall f :: Synced(f) !in log.events;
    UnsyncedLogLeaves(ONE_FAMILY, 1, log, file, seen, 0);
  }

  /** The header block in a new buffer. */
  lemma FirstSeen(log: Log) returns (seen: seq<seq<byte>>)
    requires WellFormed(log.hdr) && log.hdr.cfCount == 1 && FirstDirty(log.hdr) == Some(0)
    ensures RecoverSaw(ONE_FAMILY, log.hdr, LogBytes(log.hdr, Recs(log.events)), seen)
  {
    hide LogBytes, EncHeader, DecRecord, FirstDirty, ReadBlock;
    HeaderLength(log.hdr);
    var b := EncHeader(log.hdr) + seq(NEW_SIZE - |EncHeader(log.hdr)|, _ => 0);
    seen := [b];
    HeaderIsBlock(log.hdr, Recs(log.events));
    NeverPasses(ONE_FAMILY, log.hdr, b);
  }

  // ---- several files -------------------------------------------------------------------------------------

  /** The records of `f`, from the event `i` on, that `needReplay` accepts under the header of their file. */
  function AcceptedFrom(log: Log, f: nat, i: nat): seq<seq<byte>>
    requires WellFormed(log.hdr) && i <= |log.events|
    decreases |log.events| - i
  {
    if i == |log.events| then []
    else
      var e := log.events[i];
      (if e.Appended? && e.family == f && Accepted(log.hdr, f, Pos(HeaderSize(log.hdr.cfCount), log.events[..i])) then [e.rec] else []) +
      AcceptedFrom(log, f, i + 1)
  }

  /** The same over all files, the oldest first. */
  function AcceptedIn(logs: seq<Log>, f: nat): seq<seq<byte>>
    requires forall log :: log in logs ==> WellFormed(log.hdr)
  {
    if logs == [] then [] else AcceptedIn(logs[1..], f) + AcceptedFrom(logs[0], f, 0)
  }

  /** All files, the newest first. */
  function Logs(d: Disk): seq<Log> {
    (if d.cur.Some? then [d.cur.value] else []) + d.pre
  }

  lemma {:induction false} AcceptedAreSurvivors(log: Log, cfCount: nat, f: nat, i: nat)
    requires ValidLog(log, cfCount) && f < cfCount && i <= |log.events|
    ensures WellFormed(log.hdr) && AcceptedFrom(log, f, i) == Survivors(log.events[i..], f)
    decreases |log.events| - i
  {
    hide Pos, Accepted, WellFormed;
    if i < |log.events| {
      AcceptedAreSurvivors(log, cfCount, f, i + 1);
      var e := log.events[i];
      assert log.events[i..][1..] == log.events[i + 1..];
      if e.Appended? && e.family == f {
        AcceptedIffNotSynced(HeaderSize(cfCount), log.hdr, log.events, i);
      }
    } else {
      WellFormedOf(log, cfCount);
    }
  }

  ghost predicate EndsWith<T>(s: seq<T>, end: seq<T>) {
    |end| <= |s| && s[|s| - |end|..] == end
  }

  lemma EndsWithBoth<T>(s: seq<T>, end: seq<T>, t: seq<T>)
    requires EndsWith(s, end)
    ensures EndsWith(s + t, end + t) && EndsWith(s + t, t)
  {
    assert (s + t)[|s| - |end|..] == s[|s| - |end|..] + t;
    assert (s + t)[|s|..] == t;
  }

  lemma {:induction false} LogsCover(logs: seq<Log>, cfCount: nat, f: nat)
    requires f < cfCount && forall log :: log in logs ==> ValidLog(log, cfCount)
    ensures forall log :: log in logs ==> WellFormed(log.hdr)
    ensures EndsWith(AcceptedIn(logs, f), Survivors(WholeOf(logs), f))
  {
    hide ValidLog, Survivors, AcceptedFrom, WellFormed;
    if logs != [] {
      var h := logs[0].events;
      LogsCover(logs[1..], cfCount, f);
      AcceptedAreSurvivors(logs[0], cfCount, f, 0);
      assert h[0..] == h;
      assert logs == [logs[0]] + logs[1..];
      SurvivorsAppend(WholeOf(logs[1..]), h, f);
      EndsWithBoth(AcceptedIn(logs[1..], f), Survivors(WholeOf(logs[1..]), f), Survivors(h, f));
      assert [] + Survivors(h, f) == Survivors(h, f);
    } else {
      assert Survivors([], f) == [] by { NoSurvivors(f); }
    }
  }

  lemma NoSurvivors(f: nat)
    ensures Survivors([], f) == []
  {
  }

  lemma WholeLogs(d: Disk)
    ensures WholeOf(Logs(d)) == Whole(d)
  {
    if d.cur.Some? {
      assert ([d.cur.value] + d.pre)[1..] == d.pre;
    } else {
      assert [] + d.pre == d.pre;
      assert WholeOf(d.pre) + [] == WholeOf(d.pre);
    }
  }

  /** After any rotations, the records of a family that `needReplay` accepts under the headers of their files end
      with those that make up its current memtable: none of them is lost. */
  lemma RotationCovers(cat: Catalogue, s: Sys, f: nat)
    requires Inv(cat, s) && s.queue == [] && f < s.disk.cfCount
    ensures s.mts[f] == Fold(MutationsOf(cat, Survivors(Whole(s.disk), f)))
    ensures forall log :: log in Logs(s.disk) ==> WellFormed(log.hdr)
    ensures EndsWith(AcceptedIn(Logs(s.disk), f), Survivors(Whole(s.disk), f))
  {
    hide MutationOf, NeverFull, GoodRecords, Fold, ValidLog, AcceptedIn, WellFormed;
    assert Dispatched(s) == Whole(s.disk);
    assert Tracks(cat, s.mts[f], Dispatched(s), f);
    LogsCover(Logs(s.disk), s.disk.cfCount, f);
    WholeLogs(s.disk);
  }
}
