/** The runs of the store (insertCFStore and forceCFSFlush, db/columnFamilyStore.c, and the commit-log thread,
    db/commitLog.c) seen from its clients: what a run dispatches to the log thread, and that the log thread gets through it. */
module StoreRuns {
  import opened CStrings
  import opened Columns
  import opened Codec
  import opened MemTables
  import opened LogHeaders
  import opened LogHistory
  import opened CommitLogs
  import opened Recovery
  import opened StoreSystem

  /** What an action makes the log thread do, after what was dispatched before: an insert the write of its record, and a
      sync when the mutations of the family since its last sync now fill a memtable; a forced flush a sync. */
  function News(cat: Catalogue, before: seq<Event>, a: Action): seq<Event>
    requires a.InsertRow? ==> (a.m.keyspace, a.m.cfName) in cat
  {
    match a
    case InsertRow(m) =>
      var f := FamilyOf(cat, m);
      [Appended(f, RecordOf(m))] + if NeedsFlush(Fold(MutationsOf(cat, Survivors(before, f)) + [m])) then [Synced(f)] else []
    case ForceFlush(f) => [Synced(f)]
    case LogStep => []
  }

  ghost predicate KnownFamilies(cat: Catalogue, actions: seq<Action>) {
    forall a :: a in actions && a.InsertRow? ==> (a.m.keyspace, a.m.cfName) in cat
  }

  /** All that a run dispatches, told from its actions only. */
  function Told(cat: Catalogue, actions: seq<Action>): seq<Event>
    requires KnownFamilies(cat, actions)
  {
    if actions == [] then []
    else
      var init := actions[..|actions| - 1];
      assert forall a :: a in init ==> a in actions;
      Told(cat, init) + News(cat, Told(cat, init), actions[|actions| - 1])
  }

  lemma StepTells(cat: Catalogue, s: Sys, a: Action)
    requires Inv(cat, s) && GoodAction(cat, s.disk.cfCount, a) && Step(cat, s, a).Some?
    ensures Dispatched(Step(cat, s, a).value) == Dispatched(s) + News(cat, Dispatched(s), a)
  {
    hide Tracks, IsRecord, MutationOf, RecordOf, Insert, NeedsFlush, Fold, NeverFull, Survivors, Fits, GoodFamily, GoodRecords, WriteStep, SyncStep, Whole;
    match a
    case InsertRow(m) =>
      var f := FamilyOf(cat, m);
      MemtableIs(cat, s, f);
      var ms := MutationsOf(cat, Survivors(Dispatched(s), f));
      FoldSnoc(ms, m);
      var x, y := [Appended(f, RecordOf(m))], [Synced(f)];
      assert Whole(s.disk) + (s.queue + x) == Whole(s.disk) + s.queue + (x + []);
      assert Whole(s.disk) + (s.queue + x + y) == Whole(s.disk) + s.queue + (x + y);
    case ForceFlush(f) =>
    case LogStep =>
      assert GoodTask(s.disk.cfCount, s.queue[0]);
      TaskStepValid(s.disk, s.queue[0]);
      assert Whole(s.disk) + s.queue == Whole(s.disk) + [s.queue[0]] + s.queue[1..];
  }

  lemma MemtableIs(cat: Catalogue, s: Sys, f: nat)
    requires Inv(cat, s) && f < |s.mts|
    ensures s.mts[f] == Fold(MutationsOf(cat, Survivors(Dispatched(s), f)))
  {
    assert Tracks(cat, s.mts[f], Dispatched(s), f);
  }

  lemma ActionsKnown(cat: Catalogue, init: seq<Action>, a: Action, cfCount: nat)
    requires KnownFamilies(cat, init) && GoodAction(cat, cfCount, a)
    ensures KnownFamilies(cat, init + [a])
  {
  }

  /** In every run, what was dispatched is what the actions alone tell: every insert's record, in order, a sync behind
      each that fills its memtable, and the forced ones. */
  lemma {:induction false} DispatchedIsTold(cat: Catalogue, cfCount: nat, actions: seq<Action>, s: Sys)
    requires HeaderSize(cfCount) <= COMMITLOGMAXSZ && Reaches(cat, cfCount, actions, s)
    ensures KnownFamilies(cat, actions) && Dispatched(s) == Told(cat, actions)
    decreases |actions|
  {
    hide Step, Inv, News, KnownFamilies, Dispatched, GoodAction;
    if actions == [] {
      NothingTold(cat, cfCount);
    } else {
      var init, a := actions[..|actions| - 1], actions[|actions| - 1];
      var before: Sys :| Reaches(cat, cfCount, init, before) && Shape(before) &&
                         GoodAction(cat, before.disk.cfCount, a) && Step(cat, before, a) == Some(s);
      EveryRun(cat, cfCount, init, before);
      DispatchedIsTold(cat, cfCount, init, before);
      assert init + [a] == actions;
      ActionsKnown(cat, init, a, before.disk.cfCount);
      StepTells(cat, before, a);
    }
  }

  lemma NothingTold(cat: Catalogue, cfCount: nat)
    ensures KnownFamilies(cat, []) && Dispatched(StoreSystem.Empty(cfCount)) == []
  {
  }

  // ---- the log thread --------------------------------------------------------------------------------------------

  /** In every run the files are what the events that were done so far make of none. */
  lemma {:induction false} DiskIsRun(cat: Catalogue, cfCount: nat, actions: seq<Action>, s: Sys)
    requires HeaderSize(cfCount) <= COMMITLOGMAXSZ && Reaches(cat, cfCount, actions, s)
    ensures Inv(cat, s) && s.disk.cfCount == cfCount && Run(cfCount, Whole(s.disk)) == Some(s.disk)
    decreases |actions|
  {
    hide Inv, Step, GoodAction, Whole, Run;
    EveryRun(cat, cfCount, actions, s);
    if actions == [] {
      NothingRun(cfCount);
    } else {
      var init, a := actions[..|actions| - 1], actions[|actions| - 1];
      var before: Sys :| Reaches(cat, cfCount, init, before) && Shape(before) &&
                         GoodAction(cat, before.disk.cfCount, a) && Step(cat, before, a) == Some(s);
      DiskIsRun(cat, cfCount, init, before);
      StepRuns(cat, before, a);
    }
  }

  lemma NothingRun(cfCount: nat)
    requires cfCount < 0x8000_0000
    ensures Whole(Disk(cfCount, [], None)) == [] && Run(cfCount, []) == Some(Disk(cfCount, [], None))
  {
  }

  lemma StepRuns(cat: Catalogue, s: Sys, a: Action)
    requires Inv(cat, s) && GoodAction(cat, s.disk.cfCount, a) && Step(cat, s, a).Some?
    requires Run(s.disk.cfCount, Whole(s.disk)) == Some(s.disk)
    ensures var s' := Step(cat, s, a).value; s'.disk.cfCount == s.disk.cfCount && Run(s.disk.cfCount, Whole(s'.disk)) == Some(s'.disk)
  {
    hide Tracks, IsRecord, RecordOf, Insert, NeedsFlush, Fits, GoodFamily, GoodRecords, WriteStep, SyncStep, Whole, Run;
    if a.LogStep? {
      var e := s.queue[0];
      assert GoodTask(s.disk.cfCount, e);
      TaskStepValid(s.disk, e);
      TaskShape(s.disk, e);
      RunSnoc(s.disk.cfCount, Whole(s.disk), e);
    }
  }

  /** In every reachable state clients are never held up; and the log thread can go on exactly when it has something to do
      and the first thing that was ever dispatched is not a sync, for which there would be no file. */
  lemma NextIff(cat: Catalogue, cfCount: nat, actions: seq<Action>, s: Sys, a: Action)
    requires HeaderSize(cfCount) <= COMMITLOGMAXSZ && Reaches(cat, cfCount, actions, s) && GoodAction(cat, cfCount, a)
    ensures Shape(s) && s.disk.cfCount == cfCount
    ensures Step(cat, s, a).Some? <==> !a.LogStep? || (s.queue != [] && Dispatched(s)[0].Appended?)
  {
    hide Tracks, IsRecord, RecordOf, Insert, NeedsFlush, Fits, GoodFamily, GoodRecords, WriteStep, SyncStep, Whole, Run;
    DiskIsRun(cat, cfCount, actions, s);
    RunSurvives(cfCount, Whole(s.disk));
    if Whole(s.disk) == [] {
      NothingRun(cfCount);
      assert Dispatched(s) == s.queue;
    } else {
      assert Dispatched(s)[0] == Whole(s.disk)[0];
    }
  }

  function LogSteps(n: nat): seq<Action> {
    if n == 0 then [] else LogSteps(n - 1) + [LogStep]
  }

  /** One more step of the log thread. */
  lemma OneMore(cat: Catalogue, cfCount: nat, init: seq<Action>, r: Sys) returns (end: Sys)
    requires HeaderSize(cfCount) <= COMMITLOGMAXSZ && Reaches(cat, cfCount, init, r)
    requires r.queue != [] && Dispatched(r) != [] && Dispatched(r)[0].Appended?
    ensures Reaches(cat, cfCount, init + [LogStep], end) && end.queue == r.queue[1..] && end.mts == r.mts && Dispatched(end) == Dispatched(r)
  {
    hide Inv, Step, Dispatched, GoodAction, HeaderSize;
    assert GoodAction(cat, cfCount, LogStep) by { AlwaysGood(cat, cfCount); }
    NextIff(cat, cfCount, init, r, LogStep);
    end := Step(cat, r, LogStep).value;
    OneLogStep(cat, r);
    var all := init + [LogStep];
    assert all[..|all| - 1] == init && all[|all| - 1] == LogStep;
    EveryRun(cat, cfCount, init, r);
    StepTells(cat, r, LogStep);
    assert Dispatched(r) + [] == Dispatched(r);
  }

  /** So from every reachable state whose first dispatched event is a write, the log thread alone gets through its queue,
      and leaves the files that all that was dispatched makes, and the memtables as they are. */
  lemma {:induction false} QueueDrains(cat: Catalogue, cfCount: nat, actions: seq<Action>, s: Sys, n: nat) returns (end: Sys)
    requires HeaderSize(cfCount) <= COMMITLOGMAXSZ && Reaches(cat, cfCount, actions, s) && n <= |s.queue|
    requires Dispatched(s) != [] ==> Dispatched(s)[0].Appended?
    ensures Reaches(cat, cfCount, actions + LogSteps(n), end) && end.queue == s.queue[n..] && end.mts == s.mts
    ensures Dispatched(end) == Dispatched(s) && (n == |s.queue| ==> Run(cfCount, Dispatched(s)) == Some(end.disk))
    decreases n
  {
    hide Inv, Reaches, Run, HeaderSize, Whole;
    if n == 0 {
      end := s;
      assert actions + LogSteps(0) == actions;
    } else {
      var r := QueueDrains(cat, cfCount, actions, s, n - 1);
      assert actions + LogSteps(n) == actions + LogSteps(n - 1) + [LogStep];
      end := OneMore(cat, cfCount, actions + LogSteps(n - 1), r);
      assert r.queue[1..] == s.queue[n..];
    }
    DiskIsRun(cat, cfCount, actions + LogSteps(n), end);
    if n == |s.queue| {
      assert Dispatched(end) == Whole(end.disk);
    }
  }

  lemma AlwaysGood(cat: Catalogue, cfCount: nat)
    ensures GoodAction(cat, cfCount, LogStep)
  {
  }

  lemma OneLogStep(cat: Catalogue, s: Sys)
    requires Shape(s) && GoodAction(cat, s.disk.cfCount, LogStep) && Step(cat, s, LogStep).Some?
    ensures s.queue != [] && Step(cat, s, LogStep).value.queue == s.queue[1..] && Step(cat, s, LogStep).value.mts == s.mts
  {
  }
}
