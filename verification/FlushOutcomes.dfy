/** What becomes of a flush task (flushingHandler and synFlushingTask, db/columnFamilyStore.c), told from the
    steps its two handlers have taken: which steps may come next, and when the SSTable is listed. */
module FlushOutcomes {
  import opened CStrings
  import opened Columns
  import opened Codec
  import opened MemTables
  import opened TaskRefs
  import opened FlushProtocol

  type Steps = seq<HandlerStep>

  predicate OfFlusher(x: HandlerStep) { !x.SyncLog? && !x.Update? && !x.Release? }

  predicate OfSyncer(x: HandlerStep) { x.SyncLog? || x.Update? }

  predicate Failing(x: HandlerStep) {
    x == Open(false) || x == WriteOut(false) || x == OpenReader(false) || x == List(false) || x == SyncLog(false)
  }

  function FlushSteps(steps: Steps): Steps {
    if steps == [] then []
    else FlushSteps(steps[..|steps| - 1]) + if OfFlusher(steps[|steps| - 1]) then [steps[|steps| - 1]] else []
  }

  function SyncSteps(steps: Steps): Steps {
    if steps == [] then []
    else SyncSteps(steps[..|steps| - 1]) + if OfSyncer(steps[|steps| - 1]) then [steps[|steps| - 1]] else []
  }

  /** The flush handler opens a writer, writes, opens a reader, waits, decides and lists; it stops when one fails. */
  predicate FlushOrder(fs: Steps) {
    && |fs| <= 6
    && (|fs| > 0 ==> fs[0].Open?) && (|fs| > 1 ==> fs[1].WriteOut?) && (|fs| > 2 ==> fs[2].OpenReader?)
    && (|fs| > 3 ==> fs[3].Wake? || fs[3].TimeOut?) && (|fs| > 4 ==> fs[4].Decide?) && (|fs| > 5 ==> fs[5].List?)
    && forall k :: 0 <= k < |fs| - 1 ==> !Failing(fs[k])
  }

  /** The sync handler syncs the log; when it succeeds it marks the task. */
  predicate SyncOrder(ss: Steps) {
    && |ss| <= 2
    && (|ss| > 0 ==> ss[0].SyncLog?) && (|ss| > 1 ==> ss[0] == SyncLog(true) && ss[1].Update?)
  }

  /** The header was updated when the flush handler decided. */
  ghost predicate InTime(steps: Steps) {
    exists k :: 0 <= k < |steps| && steps[k] == Decide && Update in steps[..k]
  }

  /** How the handlers wait for each other: the flush handler is woken only by the update, and lists only when
      the header was updated in time. */
  ghost predicate Waits(steps: Steps) {
    forall k :: 0 <= k < |steps| ==> (steps[k].Wake? ==> Update in steps[..k]) && (steps[k].List? ==> InTime(steps[..k]))
  }

  /** The orders in which the steps of one task may come. */
  ghost predicate Legal(steps: Steps) {
    FlushOrder(FlushSteps(steps)) && SyncOrder(SyncSteps(steps)) && Waits(steps)
  }

  ghost predicate FlushFailed(steps: Steps) {
    exists k :: 0 <= k < |steps| && OfFlusher(steps[k]) && Failing(steps[k])
  }

  /** The flush handler has nothing more to do. */
  ghost predicate Through(steps: Steps) {
    FlushFailed(steps) || List(true) in steps || (Decide in steps && !InTime(steps))
  }

  // ---- one task -----------------------------------------------------------------------------------------

  lemma {:induction false} FlushStepsIn(steps: Steps, x: HandlerStep)
    ensures x in FlushSteps(steps) <==> x in steps && OfFlusher(x)
  {
    if steps != [] {
      var init, last := steps[..|steps| - 1], steps[|steps| - 1];
      assert steps == init + [last];
      FlushStepsIn(init, x);
    }
  }

  lemma {:induction false} SyncStepsIn(steps: Steps, x: HandlerStep)
    ensures x in SyncSteps(steps) <==> x in steps && OfSyncer(x)
  {
    if steps != [] {
      var init, last := steps[..|steps| - 1], steps[|steps| - 1];
      assert steps == init + [last];
      SyncStepsIn(init, x);
    }
  }

  lemma StepsSnoc(steps: Steps, x: HandlerStep)
    ensures FlushSteps(steps + [x]) == FlushSteps(steps) + if OfFlusher(x) then [x] else []
    ensures SyncSteps(steps + [x]) == SyncSteps(steps) + if OfSyncer(x) then [x] else []
  {
    assert (steps + [x])[..|steps|] == steps;
  }

  lemma InTimeSnoc(steps: Steps, x: HandlerStep)
    ensures InTime(steps + [x]) <==> InTime(steps) || (x == Decide && Update in steps)
  {
    var all := steps + [x];
    assert all[..|steps|] == steps && all[|steps|] == x;
    assert forall k :: 0 <= k < |steps| ==> all[..k] == steps[..k] && all[k] == steps[k];
    if InTime(steps) {
      var k :| 0 <= k < |steps| && steps[k] == Decide && Update in steps[..k];
      assert all[k] == Decide;
    }
  }

  lemma WaitsSnoc(steps: Steps, x: HandlerStep)
    ensures Waits(steps + [x]) <==> Waits(steps) && (x.Wake? ==> Update in steps) && (x.List? ==> InTime(steps))
  {
    hide InTime;
    var all := steps + [x];
    assert all[..|steps|] == steps && all[|steps|] == x;
    assert forall k :: 0 <= k < |steps| ==> all[..k] == steps[..k] && all[k] == steps[k];
  }

  /** Where a task is after its steps. */
  ghost predicate At(t: Task, steps: Steps) {
    var fs, ss := FlushSteps(steps), SyncSteps(steps);
    && Legal(steps)
    && t.flush == (if |fs| == 0 then Start
                   else if Failing(fs[|fs| - 1]) then GaveUp
                   else if |fs| == 1 then Opened else if |fs| == 2 then Written else if |fs| == 3 then Waiting
                   else if |fs| == 4 then Woken
                   else if |fs| == 5 then if InTime(steps) then Listing else GaveUp
                   else Removed)
    && t.sync == (if |ss| == 0 then ToSync else if |ss| == 2 then Updated
                  else if ss[0] == SyncLog(true) then ToUpdate else NotSynced)
    && (t.clHeaderUpdate <==> Update in steps) && (t.timedOut <==> TimeOut in steps)
  }

  /** What the steps of each handler tell of it. */
  lemma Told(steps: Steps)
    requires Legal(steps)
    ensures var fs, ss := FlushSteps(steps), SyncSteps(steps);
            && (Update in steps <==> |ss| == 2)
            && (Decide in steps <==> |fs| > 4) && (InTime(steps) ==> |fs| > 4 && |ss| == 2)
            && (TimeOut in steps <==> |fs| > 3 && fs[3].TimeOut?)
            && (|fs| > 3 && fs[3].Wake? ==> Update in steps)
            && (|fs| > 5 ==> InTime(steps))
            && (FlushFailed(steps) <==> |fs| > 0 && Failing(fs[|fs| - 1]))
            && (List(true) in steps <==> |fs| > 5 && fs[5] == List(true))
  {
    hide FlushSteps, SyncSteps, InTime, FlushFailed, Waits;
    var fs, ss := FlushSteps(steps), SyncSteps(steps);
    SyncStepsIn(steps, Update);
    FlushStepsIn(steps, Decide);
    FlushStepsIn(steps, TimeOut);
    FlushStepsIn(steps, List(true));
    assert |ss| == 2 ==> ss[1] == Update;
    assert |fs| > 4 ==> fs[4] == Decide;
    InTimeTold(steps);
    if |fs| > 3 {
      FlushStepsIn(steps, fs[3]);
      WaitsTold(steps, fs[3]);
    }
    if |fs| > 5 {
      FlushStepsIn(steps, fs[5]);
      WaitsTold(steps, fs[5]);
    }
    FailedTold(steps);
  }

  lemma InTimeTold(steps: Steps)
    ensures InTime(steps) ==> Decide in steps && Update in steps
  {
    if k :| 0 <= k < |steps| && steps[k] == Decide && Update in steps[..k] {
      assert forall x :: x in steps[..k] ==> x in steps;
    }
  }

  lemma WaitsTold(steps: Steps, x: HandlerStep)
    requires Waits(steps) && x in steps
    ensures (x.Wake? ==> Update in steps) && (x.List? ==> InTime(steps))
  {
    hide InTime;
    var k :| 0 <= k < |steps| && steps[k] == x;
    assert forall y :: y in steps[..k] ==> y in steps;
    if x.List? { EarlierInTime(steps, k); }
  }

  lemma FailedTold(steps: Steps)
    requires FlushOrder(FlushSteps(steps))
    ensures var fs := FlushSteps(steps); FlushFailed(steps) <==> |fs| > 0 && Failing(fs[|fs| - 1])
  {
    hide FlushSteps;
    var fs := FlushSteps(steps);
    if |fs| > 0 && Failing(fs[|fs| - 1]) {
      FlushStepsIn(steps, fs[|fs| - 1]);
    }
    if FlushFailed(steps) {
      var k :| 0 <= k < |steps| && OfFlusher(steps[k]) && Failing(steps[k]);
      FlushStepsIn(steps, steps[k]);
      var j :| 0 <= j < |fs| && fs[j] == steps[k];
    }
  }

  lemma EarlierInTime(steps: Steps, k: nat)
    requires k <= |steps| && InTime(steps[..k])
    ensures InTime(steps)
  {
    var before := steps[..k];
    var j :| 0 <= j < |before| && before[j] == Decide && Update in before[..j];
    assert before[..j] == steps[..j] && steps[j] == Decide;
  }

  /** A step of the flush handler is defined exactly when the order of the steps allows it next. */
  lemma FlusherFollows(t: Task, arrivals: seq<Mutation>, steps: Steps, x: HandlerStep)
    requires At(t, steps) && OfFlusher(x)
    ensures TaskStep(t, arrivals, x).Some? <==> Legal(steps + [x])
    ensures TaskStep(t, arrivals, x).Some? ==> At(TaskStep(t, arrivals, x).value, steps + [x])
  {
    hide Fold, RefStep, InTime, Waits, FlushSteps, SyncSteps;
    Told(steps);
    StepsSnoc(steps, x);
    InTimeSnoc(steps, x);
    WaitsSnoc(steps, x);
    var fs := FlushSteps(steps);
    assert FlushOrder(fs + [x]) ==> FlushOrder(fs);
    assert forall k :: 0 <= k < |fs| ==> (fs + [x])[k] == fs[k];
  }

  lemma SyncerFollows(t: Task, arrivals: seq<Mutation>, steps: Steps, x: HandlerStep)
    requires At(t, steps) && OfSyncer(x)
    ensures TaskStep(t, arrivals, x).Some? <==> Legal(steps + [x])
    ensures TaskStep(t, arrivals, x).Some? ==> At(TaskStep(t, arrivals, x).value, steps + [x])
  {
    hide Fold, RefStep, InTime, Waits, FlushSteps, SyncSteps, FlushOrder;
    Told(steps);
    StepsSnoc(steps, x);
    InTimeSnoc(steps, x);
    WaitsSnoc(steps, x);
    assert FlushSteps(steps) + [] == FlushSteps(steps);
  }

  // ---- every run ---------------------------------------------------------------------------------------------

  /** The steps of a run that the handlers of the flush task `i` took, up to where they give it up. */
  function StepsOf(actions: seq<Action>, i: nat): Steps {
    if actions == [] then []
    else
      var a := actions[|actions| - 1];
      StepsOf(actions[..|actions| - 1], i) + if a.Handler? && a.i == i && !a.step.Release? then [a.step] else []
  }

  lemma {:induction false} StepsOfConcat(actions: seq<Action>, more: seq<Action>, i: nat)
    ensures StepsOf(actions + more, i) == StepsOf(actions, i) + StepsOf(more, i)
  {
    if more == [] {
      assert actions + more == actions;
    } else {
      var all := actions + more;
      assert all[..|all| - 1] == actions + more[..|more| - 1];
      StepsOfConcat(actions, more[..|more| - 1], i);
    }
  }

  lemma NewTask(t: Task)
    requires t == Task(t.mt, false, map[], false, Start, ToSync, TWO)
    ensures At(t, [])
  {
  }

  /** What a step of the store makes of where the task `i` is. */
  lemma StepMoves(before: Store, a: Action, i: nat, steps: Steps)
    requires Ready(before) && Step(before, a).Some?
    requires if i < |before.tasks| then At(before.tasks[i], steps) else steps == []
    ensures var s := Step(before, a).value;
            var mine := if a.Handler? && a.i == i && !a.step.Release? then [a.step] else [];
            if i < |s.tasks| then At(s.tasks[i], steps + mine) else steps + mine == []
  {
    hide At, Fold, Remove, TaskStep;
    var s := Step(before, a).value;
    assert steps + [] == steps;
    if a.Handler? && a.i == i {
      TaskMoves(before.tasks[i], before.tables[before.tasks[i].mt], a.step, steps);
    } else if i == |before.tasks| && i < |s.tasks| {
      NewTask(s.tasks[i]);
    }
  }

  lemma TaskMoves(t: Task, arrivals: seq<Mutation>, x: HandlerStep, steps: Steps)
    requires At(t, steps) && TaskStep(t, arrivals, x).Some?
    ensures At(TaskStep(t, arrivals, x).value, if x.Release? then steps else steps + [x])
  {
    if x.Release? {
      hide RefStep, Legal;
    } else {
      hide TaskStep, At;
      if OfFlusher(x) { FlusherFollows(t, arrivals, steps, x); } else { SyncerFollows(t, arrivals, steps, x); }
    }
  }

  /** In every run the steps that the handlers of a task took came in one of the orders, and tell where it is. */
  lemma {:induction false} StepsTell(actions: seq<Action>, s: Store, i: nat)
    requires Reaches(actions, s)
    ensures if i < |s.tasks| then At(s.tasks[i], StepsOf(actions, i)) else StepsOf(actions, i) == []
    decreases |actions|
  {
    hide Step, At;
    if actions != [] {
      var init, a := actions[..|actions| - 1], actions[|actions| - 1];
      var before: Store :| Reaches(init, before) && Ready(before) && Step(before, a) == Some(s);
      StepsTell(init, before, i);
      StepMoves(before, a, i, StepsOf(init, i));
    }
  }

  /** In every reachable store, whatever the other tasks are at: a handler of the task `i` can take a step exactly
      when that step comes next in the order of the two handlers. */
  lemma NextIffInOrder(actions: seq<Action>, s: Store, i: nat, x: HandlerStep)
    requires Reaches(actions, s) && i < |s.tasks| && !x.Release?
    ensures Ready(s) && (Step(s, Handler(i, x)).Some? <==> Legal(StepsOf(actions, i) + [x]))
  {
    hide Fold, Kept, Faithful, Concat, At, TaskStep, Legal, GoodTask;
    EveryRun(actions, s);
    StepsTell(actions, s, i);
    var t := s.tasks[i];
    if OfFlusher(x) {
      FlusherFollows(t, s.tables[t.mt], StepsOf(actions, i), x);
    } else {
      SyncerFollows(t, s.tables[t.mt], StepsOf(actions, i), x);
    }
  }

  /** And it can take a step in which it gives its reference up exactly when it has nothing else to do, and that step comes
      next; for the sync handler, when the sync failed or it has marked the task. Inserts and forced flushes are never held up. */
  lemma ReleaseIff(actions: seq<Action>, s: Store, i: nat, who: Who, op: Op)
    requires Reaches(actions, s) && i < |s.tasks|
    ensures Ready(s) && forall m :: Step(s, Insert(m)).Some?
    ensures Step(s, Force).Some?
    ensures Step(s, Handler(i, Release(who, op))).Some? <==>
            && (if who.Flusher? then Through(StepsOf(actions, i)) else SyncLog(false) in StepsOf(actions, i) || Update in StepsOf(actions, i))
            && By(OpsOf(actions, i), who) + [op] <= TaskRefs.ALL
  {
    hide Fold, Kept, Faithful, Concat, Legal, GoodTask, RefStep, NeedsFlush, StepsOf, By, DoneBy, RunRefs, Through;
    EveryRun(actions, s);
    StepsTell(actions, s, i);
    RefsFollow(actions, s, i);
    RunsIffInOrder(OpsOf(actions, i));
    NextInOrder(s.tasks[i].refs, who, op);
    Ends(s.tasks[i], StepsOf(actions, i));
    SyncEnds(s.tasks[i], StepsOf(actions, i));
  }

  lemma SyncEnds(t: Task, steps: Steps)
    requires At(t, steps)
    ensures AtEnd(t, Syncer) <==> SyncLog(false) in steps || Update in steps
  {
    hide InTime, FlushFailed, Waits, FlushSteps, SyncSteps, FlushOrder;
    SyncStepsIn(steps, SyncLog(false));
    SyncStepsIn(steps, Update);
    var ss := SyncSteps(steps);
    if |ss| > 0 && ss[0] != SyncLog(true) { assert ss[0] == SyncLog(false); }
    assert |ss| == 2 ==> ss[1] == Update;
  }

  /** In every reachable store: the flush handler is at its end when a step of it failed, when it has listed, or
      when it decided before the update; and then its SSTable is listed, with all rows of the memtable, and the
      memtable off the flushing list, if and only if no step failed and the header was updated when it decided. */
  lemma ListedIff(actions: seq<Action>, s: Store, i: nat)
    requires Reaches(actions, s) && i < |s.tasks|
    ensures Inv(s)
    ensures AtEnd(s.tasks[i], Flusher) <==> Through(StepsOf(actions, i))
    ensures Through(StepsOf(actions, i)) ==>
              (SST(i, Fold(s.tables[i]).rows) in s.ssTL <==> !FlushFailed(StepsOf(actions, i)) && InTime(StepsOf(actions, i)))
    ensures SST(i, Fold(s.tables[i]).rows) in s.ssTL <==> i !in s.flushingMTL
    ensures SST(i, Fold(s.tables[i]).rows) in s.ssTL <==> List(true) in StepsOf(actions, i)
  {
    hide Fold, Concat, Legal, InTime, FlushFailed, GoodTask;
    EveryRun(actions, s);
    StepsTell(actions, s, i);
    Told(StepsOf(actions, i));
    Ends(s.tasks[i], StepsOf(actions, i));
    ListedOnce(s, i);
  }

  lemma Ends(t: Task, steps: Steps)
    requires At(t, steps)
    ensures AtEnd(t, Flusher) <==> Through(steps)
    ensures t.flush.Removed? <==> List(true) in steps
    ensures Through(steps) ==> (t.flush.Removed? <==> !FlushFailed(steps) && InTime(steps))
  {
    hide InTime, FlushFailed, Waits, FlushSteps, SyncSteps;
    Told(steps);
  }

  lemma ListedOnce(s: Store, i: nat)
    requires Inv(s) && i < |s.tasks|
    ensures SST(i, Fold(s.tables[i]).rows) in s.ssTL <==> s.tasks[i].flush.Removed?
    ensures i in s.flushingMTL <==> !s.tasks[i].flush.Removed?
  {
    hide Fold, GoodTask;
    var x := SST(i, Fold(s.tables[i]).rows);
    if x in s.ssTL {
      var k :| 0 <= k < |s.ssTL| && s.ssTL[k] == x;
      assert s.ssTL[k].id == i;
    }
    if s.tasks[i].flush.Removed? {
      var k :| 0 <= k < |s.ssTL| && s.ssTL[k].id == i;
      assert s.ssTL[k] == x;
    }
  }

  // ---- a flush that nothing hinders ------------------------------------------------------------------------------

  /** The store after some more actions, when each is possible where it comes. */
  ghost function RunFrom(s: Store, actions: seq<Action>): Option<Store> {
    if actions == [] then Some(s)
    else
      match RunFrom(s, actions[..|actions| - 1])
      case None => None
      case Some(r) => if Ready(r) then Step(r, actions[|actions| - 1]) else None
  }

  lemma {:induction false} RunReaches(before: seq<Action>, s: Store, actions: seq<Action>)
    requires Reaches(before, s) && RunFrom(s, actions).Some?
    ensures Reaches(before + actions, RunFrom(s, actions).value)
    decreases |actions|
  {
    hide Step, Ready;
    if actions == [] {
      assert before + actions == before;
    } else {
      var all := before + actions;
      assert all[..|all| - 1] == before + actions[..|actions| - 1];
      RunReaches(before, s, actions[..|actions| - 1]);
    }
  }

  predicate StepOf(a: Action, i: nat) { a.Handler? && a.i == i && !a.step.Release? }

  /** What the others do is possible when they come to do it. */
  ghost predicate OthersGoOn(s: Store, actions: seq<Action>, i: nat) {
    forall k :: 0 <= k < |actions| && !StepOf(actions[k], i) && RunFrom(s, actions[..k]).Some? ==> RunFrom(s, actions[..k + 1]).Some?
  }

  lemma OrderBefore(fs: Steps, ss: Steps, x: HandlerStep)
    ensures FlushOrder(fs + [x]) || FlushOrder(fs + []) ==> FlushOrder(fs)
    ensures SyncOrder(ss + [x]) || SyncOrder(ss + []) ==> SyncOrder(ss)
  {
    assert fs + [] == fs && ss + [] == ss;
    assert forall k :: 0 <= k < |fs| ==> (fs + [x])[k] == fs[k];
  }

  lemma LegalInit(init: Steps, x: HandlerStep)
    requires Legal(init + [x])
    ensures Legal(init)
  {
    hide FlushSteps, SyncSteps, Waits, InTime, FlushOrder, SyncOrder;
    StepsSnoc(init, x);
    WaitsSnoc(init, x);
    OrderBefore(FlushSteps(init), SyncSteps(init), x);
  }

  lemma {:induction false} LegalBefore(steps: Steps, k: nat)
    requires Legal(steps) && k <= |steps|
    ensures Legal(steps[..k])
    decreases |steps|
  {
    hide Legal;
    if k == |steps| {
      assert steps[..k] == steps;
    } else {
      var init, x := steps[..|steps| - 1], steps[|steps| - 1];
      assert steps == init + [x];
      LegalInit(init, x);
      LegalBefore(init, k);
      assert init[..k] == steps[..k];
    }
  }

  /** From every reachable store: when the steps of the task `i` keep to the order of its two handlers, none is
      held up by anything else, and the whole run is possible however they interleave with it. */
  lemma {:induction false} OrderIsEnough(before: seq<Action>, s: Store, actions: seq<Action>, i: nat)
    requires Reaches(before, s) && i < |s.tasks|
    requires Legal(StepsOf(before + actions, i)) && OthersGoOn(s, actions, i)
    ensures RunFrom(s, actions).Some? && |RunFrom(s, actions).value.tasks| >= |s.tasks|
    decreases |actions|
  {
    hide Step, Ready, Legal, Reaches;
    if actions != [] {
      var n := |actions| - 1;
      var init, a := actions[..n], actions[n];
      assert (before + actions)[..|before| + n] == before + init && (before + actions)[|before| + n] == a;
      assert before + actions == before + init + [a];
      var done := StepsOf(before + init, i);
      assert StepsOf(before + actions, i) == done + if StepOf(a, i) then [a.step] else [];
      LegalBefore(StepsOf(before + actions, i), |done|);
      assert StepsOf(before + actions, i)[..|done|] == done;
      assert forall k :: 0 <= k <= n ==> init[..k] == actions[..k];
      OrderIsEnough(before, s, init, i);
      var r := RunFrom(s, init).value;
      RunReaches(before, s, init);
      if StepOf(a, i) {
        NextIffInOrder(before + init, r, i, a.step);
      }
      assert actions[..n + 1] == actions;
      GrowsBy(r, a);
    }
  }

  lemma GrowsBy(s: Store, a: Action)
    ensures Ready(s) && Step(s, a).Some? ==> |Step(s, a).value.tasks| >= |s.tasks|
  {
    hide Fold, TaskStep, Remove;
  }

  /** Nothing fails, and the flush handler decides after the update: woken by it, or in time for it. */
  ghost predicate Succeeds(steps: Steps) {
    && (FlushSteps(steps) == [Open(true), WriteOut(true), OpenReader(true), Wake, Decide, List(true)]
        || FlushSteps(steps) == [Open(true), WriteOut(true), OpenReader(true), TimeOut, Decide, List(true)])
    && SyncSteps(steps) == [SyncLog(true), Update]
    && forall k :: 0 <= k < |steps| && (steps[k].Wake? || steps[k].Decide?) ==> Update in steps[..k]
  }

  lemma SuccessIsLegal(steps: Steps)
    requires Succeeds(steps)
    ensures Legal(steps)
  {
    hide SyncSteps;
    forall k | 0 <= k < |steps| && steps[k].List? ensures InTime(steps[..k]) {
      DecidedBefore(steps, k);
      var init := steps[..k];
      var j :| 0 <= j < |init| && init[j] == Decide;
      assert init[..j] == steps[..j];
    }
  }

  /** The flush handler decides before it lists. */
  lemma {:induction false} DecidedBefore(steps: Steps, k: nat)
    requires FlushOrder(FlushSteps(steps)) && k < |steps| && steps[k].List?
    ensures Decide in steps[..k]
  {
    var n := |steps| - 1;
    var init := steps[..n];
    assert FlushSteps(steps) == FlushSteps(init) + if OfFlusher(steps[n]) then [steps[n]] else [];
    hide FlushSteps;
    var fs := FlushSteps(steps);
    if k == n {
      assert fs[|fs| - 1].List?;
      assert |fs| == 6 && FlushSteps(init)[4] == Decide;
      FlushStepsIn(init, Decide);
    } else {
      assert FlushOrder(FlushSteps(init));
      DecidedBefore(init, k);
      assert init[..k] == steps[..k];
    }
  }

  /** From every reachable store in which the handlers of the task `i` have not begun: when nothing of theirs
      fails and the flush handler decides after the update, their steps are possible in any such order, among any
      steps of others, and at the end the SSTable is listed with all rows of the memtable, which is off the
      flushing list. */
  lemma FlushSucceeds(before: seq<Action>, s: Store, actions: seq<Action>, i: nat)
    requires Reaches(before, s) && i < |s.tasks| && s.tasks[i].flush == Start && s.tasks[i].sync == ToSync
    requires Succeeds(StepsOf(actions, i)) && OthersGoOn(s, actions, i)
    ensures Inv(s) && RunFrom(s, actions).Some?
    ensures var end := RunFrom(s, actions).value;
            Inv(end) && i < |end.tasks| && end.tables[i] == s.tables[i] &&
            SST(i, Fold(s.tables[i]).rows) in end.ssTL && i !in end.flushingMTL
  {
    hide Fold, Concat, Inv, Kept, Faithful, GoodTask, Reaches, Step, OthersGoOn, Legal, StepsOf, RunFrom, Through;
    EveryRun(before, s);
    StepsTell(before, s, i);
    NoReleases(before, i);
    NotBegun(s.tasks[i], StepsOf(before, i));
    StepsOfConcat(before, actions, i);
    assert StepsOf(before + actions, i) == StepsOf(actions, i);
    SuccessIsLegal(StepsOf(actions, i));
    OrderIsEnough(before, s, actions, i);
    RunReaches(before, s, actions);
    var end := RunFrom(s, actions).value;
    ListedIff(before + actions, end, i);
    SuccessLists(StepsOf(actions, i));
    StaysFrozen(before, s, actions, i);
  }

  lemma SuccessLists(steps: Steps)
    requires Succeeds(steps)
    ensures List(true) in steps
  {
    hide FlushSteps, SyncSteps;
    FlushStepsIn(steps, List(true));
    assert FlushSteps(steps)[5] == List(true);
  }

  lemma NotBegun(t: Task, steps: Steps)
    requires At(t, steps) && t.flush == Start && t.sync == ToSync && forall x :: x in steps ==> !x.Release?
    ensures steps == []
  {
    hide Legal, FlushSteps, SyncSteps;
    if steps != [] {
      FlushStepsIn(steps, steps[0]);
      SyncStepsIn(steps, steps[0]);
    }
  }

  lemma {:induction false} NoReleases(actions: seq<Action>, i: nat)
    ensures forall x :: x in StepsOf(actions, i) ==> !x.Release?
  {
    if actions != [] {
      NoReleases(actions[..|actions| - 1], i);
    }
  }

  /** A memtable that is being flushed stays as it is. */
  lemma {:induction false} StaysFrozen(before: seq<Action>, s: Store, actions: seq<Action>, i: nat)
    requires Reaches(before, s) && i < |s.tasks| && RunFrom(s, actions).Some?
    ensures Inv(s) && Inv(RunFrom(s, actions).value)
    ensures i < |RunFrom(s, actions).value.tasks| && RunFrom(s, actions).value.tables[i] == s.tables[i]
    decreases |actions|
  {
    hide Step, Ready, Kept, Faithful, GoodTask, Reaches, Concat;
    EveryRun(before, s);
    if actions != [] {
      var init, a := actions[..|actions| - 1], actions[|actions| - 1];
      StaysFrozen(before, s, init, i);
      var r := RunFrom(s, init).value;
      StepKeeps(r, a);
      GrowsBy(r, a);
      Frozen(r, a, i);
    }
  }

  // ---- when a memtable is flushed --------------------------------------------------------------------------------

  /** In every run the current memtable is not full, and without a forced flush every other one is. */
  lemma {:induction false} FlushedWhenFull(actions: seq<Action>, s: Store)
    requires Reaches(actions, s)
    ensures Inv(s) && !NeedsFlush(Fold(s.tables[s.curMT]))
    ensures Force !in actions ==> forall i :: 0 <= i < s.curMT ==> NeedsFlush(Fold(s.tables[i]))
    decreases |actions|
  {
    hide Step, Fold, NeedsFlush, Kept, Faithful, GoodTask;
    EveryRun(actions, s);
    EmptyNotFull();
    if actions != [] {
      var init, a := actions[..|actions| - 1], actions[|actions| - 1];
      var before: Store :| Reaches(init, before) && Ready(before) && Step(before, a) == Some(s);
      FlushedWhenFull(init, before);
      StepFlushes(before, a);
      assert forall x :: x in init ==> x in actions;
    }
  }

  /** In every run the flushing list has the memtables in the order of their flushes, the newest first. */
  lemma {:induction false} NewestFirst(actions: seq<Action>, s: Store)
    requires Reaches(actions, s)
    ensures forall j, k :: 0 <= j < k < |s.flushingMTL| ==> s.flushingMTL[j] > s.flushingMTL[k]
    decreases |actions|
  {
    hide Step, Fold, NeedsFlush, Faithful, GoodTask, Concat;
    if actions != [] {
      var init, a := actions[..|actions| - 1], actions[|actions| - 1];
      var before: Store :| Reaches(init, before) && Ready(before) && Step(before, a) == Some(s);
      EveryRun(init, before);
      NewestFirst(init, before);
      StepKeepsOrder(before, a);
    }
  }

  lemma StepKeepsOrder(s: Store, a: Action)
    requires Inv(s) && Step(s, a).Some? && forall j, k :: 0 <= j < k < |s.flushingMTL| ==> s.flushingMTL[j] > s.flushingMTL[k]
    ensures var l := Step(s, a).value.flushingMTL; forall j, k :: 0 <= j < k < |l| ==> l[j] > l[k]
  {
    hide Fold, NeedsFlush, Faithful, GoodTask, TaskStep, Remove;
    if a.Handler? {
      RemoveOrdered(s.flushingMTL, s.tasks[a.i].mt);
    } else {
      var l := [s.curMT] + s.flushingMTL;
      assert forall k :: 0 < k < |l| ==> l[k] == s.flushingMTL[k - 1] < s.curMT;
    }
  }

  lemma ConsOrdered(x: nat, rest: seq<nat>)
    requires (forall j, k :: 0 <= j < k < |rest| ==> rest[j] > rest[k]) && forall y :: y in rest ==> x > y
    ensures forall j, k :: 0 <= j < k < |[x] + rest| ==> ([x] + rest)[j] > ([x] + rest)[k]
  {
    var r := [x] + rest;
    forall j, k | 0 <= j < k < |r| ensures r[j] > r[k] {
      assert r[k] == rest[k - 1] && rest[k - 1] in rest;
      if j > 0 { assert r[j] == rest[j - 1] > rest[k - 1]; }
    }
  }

  lemma {:induction false} RemoveOrdered(l: seq<nat>, id: nat)
    requires forall j, k :: 0 <= j < k < |l| ==> l[j] > l[k]
    ensures forall x :: x in Remove(l, id) ==> x in l
    ensures forall j, k :: 0 <= j < k < |Remove(l, id)| ==> Remove(l, id)[j] > Remove(l, id)[k]
  {
    var r := Remove(l, id);
    if l != [] && l[0] != id {
      RemoveOrdered(l[1..], id);
      hide Remove;
      assert l == [l[0]] + l[1..] && forall x :: x in l[1..] ==> x < l[0];
      ConsOrdered(l[0], Remove(l[1..], id));
    } else if l != [] {
      assert forall j :: 0 <= j < |r| ==> r[j] == l[j + 1];
    }
  }

  lemma EmptyNotFull()
    ensures !NeedsFlush(Fold([]))
  {
  }

  lemma StepFlushes(s: Store, a: Action)
    requires Inv(s) && Step(s, a).Some? && !NeedsFlush(Fold([])) && !NeedsFlush(Fold(s.tables[s.curMT]))
    ensures var s' := Step(s, a).value;
            && s'.curMT < |s'.tables| && !NeedsFlush(Fold(s'.tables[s'.curMT])) && |s.tables| <= |s'.tables|
            && (forall i :: 0 <= i < s.curMT ==> s'.tables[i] == s.tables[i])
            && (a == Force || s'.curMT == s.curMT || (s'.curMT == s.curMT + 1 && NeedsFlush(Fold(s'.tables[s.curMT]))))
  {
    hide Fold, NeedsFlush, Kept, Faithful, GoodTask, TaskStep, Remove;
  }
}
