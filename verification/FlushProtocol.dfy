/** The flushing of memtables (db/columnFamilyStore.c) as steps that interleave in any order: inserts, forced
    flushes, the flush handler and the sync handler of each task, with every failure and the timeout, and the
    steps in which the two give their references up. */
module FlushProtocol {
  import opened CStrings
  import opened Columns
  import opened Codec
  import opened MemTables
  import opened TaskRefs

  /** An SSTable: the memtable it was written from, and its rows. */
  datatype SST = SST(id: nat, rows: map<CStr, Family>)

  /** Where the flush handler of a task is, up to `decrFlushTask`. */
  datatype FlushAt = Start | Opened | Written | Waiting | Woken | Listing | Removed | GaveUp

  /** Where the sync handler of a task is, up to `decrFlushTask`. */
  datatype SyncAt = ToSync | ToUpdate | Updated | NotSynced

  /** A flush task; `rows` are what the flush handler wrote to disk, `timedOut` how its wait ended, `refs` what
      the handlers have made of its reference count. */
  datatype Task = Task(mt: nat, clHeaderUpdate: bool, rows: map<CStr, Family>, timedOut: bool,
                       flush: FlushAt, sync: SyncAt, refs: Refs)

  /** `tables` are all memtables ever made, each by the mutations that went into it; the lists refer to them. */
  datatype Store = Store(tables: seq<seq<Mutation>>, curMT: nat, flushingMTL: seq<nat>, ssTL: seq<SST>, tasks: seq<Task>)

  /** What a handler does next, and whether it succeeds. */
  datatype HandlerStep =
    | Open(created: bool)
    | WriteOut(written: bool)
    | OpenReader(reading: bool)
    | Wake
    | TimeOut
    | Decide
    | List(listed: bool)
    | SyncLog(synced: bool)
    | Update
    | Release(who: Who, op: Op)

  datatype Action = Insert(m: Mutation) | Force | Handler(i: nat, step: HandlerStep)

  const NEW: Store := Store([[]], 0, [], [], [])

  /** The critical section of a flush: the current memtable goes to the flushing list and gets a task with
      two references; a new memtable takes its place. */
  function Swap(s: Store): Store {
    Store(s.tables + [[]], |s.tables|, [s.curMT] + s.flushingMTL, s.ssTL,
          s.tasks + [Task(s.curMT, false, map[], false, Start, ToSync, TWO)])
  }

  /** LIST_REMOVE. */
  function Remove(l: seq<nat>, id: nat): seq<nat> {
    if l == [] then [] else if l[0] == id then l[1..] else [l[0]] + Remove(l[1..], id)
  }

  /** A handler has nothing more to do than to give its reference up. */
  predicate AtEnd(t: Task, who: Who) {
    if who.Flusher? then t.flush.Removed? || t.flush.GaveUp? else t.sync.Updated? || t.sync.NotSynced?
  }

  /** A task after one more step of one of its handlers. */
  function TaskStep(t: Task, arrivals: seq<Mutation>, step: HandlerStep): Option<Task> {
    match step
    case Open(ok) => if t.flush.Start? then Some(t.(flush := if ok then Opened else GaveUp)) else None
    case WriteOut(ok) =>
      if t.flush.Opened? then Some(if ok then t.(flush := Written, rows := Fold(arrivals).rows) else t.(flush := GaveUp)) else None
    case OpenReader(ok) => if t.flush.Written? then Some(t.(flush := if ok then Waiting else GaveUp)) else None
    case Wake => if t.flush.Waiting? && t.clHeaderUpdate then Some(t.(flush := Woken)) else None
    case TimeOut => if t.flush.Waiting? then Some(t.(flush := Woken, timedOut := true)) else None
    case Decide =>
      if t.flush.Woken? then Some(t.(flush := if !t.timedOut || t.clHeaderUpdate then Listing else GaveUp)) else None
    case List(ok) => if t.flush.Listing? then Some(t.(flush := if ok then Removed else GaveUp)) else None
    case SyncLog(ok) => if t.sync.ToSync? then Some(t.(sync := if ok then ToUpdate else NotSynced)) else None
    case Update => if t.sync.ToUpdate? then Some(t.(clHeaderUpdate := true, sync := Updated)) else None
    case Release(who, op) =>
      if !AtEnd(t, who) then None
      else match RefStep(t.refs, who, op) case None => None case Some(r) => Some(t.(refs := r))
  }

  /** One step; the lists change only when a memtable is swapped or an SSTable is listed. */
  function Step(s: Store, a: Action): Option<Store>
    requires s.curMT < |s.tables| && forall t :: t in s.tasks ==> t.mt < |s.tables|
  {
    match a
    case Insert(m) =>
      var arrivals := s.tables[s.curMT] + [m];
      var s' := s.(tables := s.tables[s.curMT := arrivals]);
      Some(if NeedsFlush(Fold(arrivals)) then Swap(s') else s')
    case Force => Some(Swap(s))
    case Handler(i, step) =>
      if i >= |s.tasks| then None
      else
        var t := s.tasks[i];
        match TaskStep(t, s.tables[t.mt], step)
        case None => None
        case Some(t') =>
          var s' := s.(tasks := s.tasks[i := t']);
          Some(if step == List(true)
               then s'.(ssTL := [SST(t.mt, t.rows)] + s.ssTL, flushingMTL := Remove(s.flushingMTL, t.mt))
               else s')
  }

  // ---- one task -----------------------------------------------------------------------------------------

  /** Each handler holds its reference until its end. */
  ghost predicate GoodTask(t: Task, arrivals: seq<Mutation>) {
    && GoodRefs(t.refs) && (forall who: Who :: !AtEnd(t, who) ==> Of(t.refs, who).Held?)
    && (t.flush.Written? || t.flush.Waiting? || t.flush.Woken? || t.flush.Listing? ==> t.rows == Fold(arrivals).rows)
    && ((t.flush.Woken? && !t.timedOut) || t.flush.Listing? || t.flush.Removed? ==> t.clHeaderUpdate)
    && (t.flush.Start? || t.flush.Opened? || t.flush.Written? || t.flush.Waiting? ==> !t.timedOut)
    && (t.clHeaderUpdate ==> t.sync.Updated?)
  }

  /** A task stays as it should be; and except in the test that ends `decrFlushTask`, no handler ever makes a
      step on a task that was freed. */
  lemma TaskStepKeeps(t: Task, arrivals: seq<Mutation>, a: HandlerStep)
    requires GoodTask(t, arrivals) && TaskStep(t, arrivals, a).Some?
    ensures !(a.Release? && a.op == TestCount) ==> t.refs.freed == 0 && t.refs.refCount > 0
    ensures var t' := TaskStep(t, arrivals, a).value;
            && GoodTask(t', arrivals) && t'.mt == t.mt && (t.clHeaderUpdate ==> t'.clHeaderUpdate)
  {
    hide Fold, GoodRefs, RefStep;
    if a.Release? {
      RefsKept(t.refs, a.who, a.op);
    } else {
      HeldNotFreed(t.refs, if a.SyncLog? || a.Update? then Syncer else Flusher);
    }
  }

  lemma RefsKept(r: Refs, who: Who, op: Op)
    requires GoodRefs(r) && RefStep(r, who, op).Some?
    ensures GoodRefs(RefStep(r, who, op).value) && (op != TestCount ==> r.freed == 0 && r.refCount > 0)
    ensures forall w: Who :: w != who ==> Of(RefStep(r, who, op).value, w) == Of(r, w)
  {
    var raced, lost :| StateIs(r, raced, lost);
    StepIs(r, who, op, raced, lost);
  }

  lemma HeldNotFreed(r: Refs, who: Who)
    requires GoodRefs(r) && Of(r, who).Held?
    ensures r.freed == 0 && r.refCount > 0
  {
  }

  lemma TwoAreGood()
    ensures GoodRefs(TWO)
  {
    NothingYet();
  }

  // ---- the store ------------------------------------------------------------------------------------------

  ghost predicate Listed(ssTL: seq<SST>, id: nat) {
    exists k :: 0 <= k < |ssTL| && ssTL[k].id == id
  }

  ghost predicate NoRepeats(l: seq<nat>) {
    forall j, k :: 0 <= j < k < |l| ==> l[j] != l[k]
  }

  /** Every memtable is the current one, in the flushing list, or in a listed SSTable: in one of them only. */
  ghost predicate Kept(s: Store) {
    && (forall i :: 0 <= i < |s.tasks| ==> (i in s.flushingMTL <==> !Listed(s.ssTL, i)))
    && (forall i :: 0 <= i < |s.tasks| ==> (s.tasks[i].flush.Removed? <==> Listed(s.ssTL, i)))
    && (forall j :: 0 <= j < |s.flushingMTL| ==> s.flushingMTL[j] < |s.tasks|)
    && NoRepeats(s.flushingMTL)
    && (forall j, k :: 0 <= j < k < |s.ssTL| ==> s.ssTL[j].id != s.ssTL[k].id)
  }

  /** A listed SSTable has all rows of its memtable, and the log was synced for it before it was listed. */
  ghost predicate Faithful(s: Store)
    requires |s.tasks| < |s.tables|
  {
    forall k :: 0 <= k < |s.ssTL| ==>
      s.ssTL[k].id < |s.tasks| && s.ssTL[k].rows == Fold(s.tables[s.ssTL[k].id]).rows && s.tasks[s.ssTL[k].id].clHeaderUpdate
  }

  function Concat<T>(ss: seq<seq<T>>): seq<T> {
    if ss == [] then [] else Concat(ss[..|ss| - 1]) + ss[|ss| - 1]
  }

  ghost predicate Inv(s: Store) {
    && s.curMT == |s.tasks| && |s.tables| == |s.tasks| + 1
    && (forall i :: 0 <= i < |s.tasks| ==> s.tasks[i].mt == i && GoodTask(s.tasks[i], s.tables[i]))
    && Kept(s) && Faithful(s)
  }

  lemma SwapKeeps(s: Store)
    requires Inv(s)
    ensures Inv(Swap(s))
  {
    hide Fold, GoodRefs;
    TwoAreGood();
    var s' := Swap(s);
    forall i | 0 <= i < |s'.tasks| ensures i in s'.flushingMTL <==> !Listed(s'.ssTL, i) {
      if i < |s.tasks| {
        assert i in s'.flushingMTL <==> i in s.flushingMTL;
      } else {
        assert s'.flushingMTL[0] == i;
      }
    }
    assert forall i :: 0 <= i < |s.tasks| ==> s'.tasks[i] == s.tasks[i] && s'.tables[i] == s.tables[i];
  }

  lemma InsertKeeps(s: Store, arrivals: seq<Mutation>)
    requires Inv(s)
    ensures Inv(s.(tables := s.tables[s.curMT := arrivals]))
  {
    hide Fold;
    var s' := s.(tables := s.tables[s.curMT := arrivals]);
    assert forall i :: 0 <= i < |s.tasks| ==> s'.tables[i] == s.tables[i];
  }

  /** A step of a task that lists nothing. */
  lemma HandlerKeeps(s: Store, i: nat, step: HandlerStep)
    requires Inv(s) && Step(s, Handler(i, step)).Some? && step != List(true)
    ensures Inv(Step(s, Handler(i, step)).value)
  {
    hide Fold, GoodRefs, RefStep;
    var t := s.tasks[i];
    TaskStepKeeps(t, s.tables[t.mt], step);
    var s' := Step(s, Handler(i, step)).value;
    assert forall k :: 0 <= k < |s.tasks| && k != i ==> s'.tasks[k] == s.tasks[k];
    assert s'.tasks[i].flush.Removed? <==> t.flush.Removed?;
  }

  lemma {:induction false} RemoveIs(l: seq<nat>, id: nat)
    requires NoRepeats(l)
    ensures NoRepeats(Remove(l, id)) && forall x :: x in Remove(l, id) <==> x in l && x != id
  {
    if l != [] {
      assert l == [l[0]] + l[1..];
      assert forall j :: 0 <= j < |l[1..]| ==> l[1..][j] == l[j + 1] != l[0];
      RemoveIs(l[1..], id);
      if l[0] != id {
        var r := Remove(l[1..], id);
        forall j, k | 0 <= j < k < |r| + 1 ensures ([l[0]] + r)[j] != ([l[0]] + r)[k] {
          assert if j == 0 then r[k - 1] in r else r[j - 1] != r[k - 1];
        }
      }
    }
  }

  lemma ListedMore(ssTL: seq<SST>, x: SST, id: nat)
    ensures Listed([x] + ssTL, id) <==> id == x.id || Listed(ssTL, id)
  {
    var l := [x] + ssTL;
    if id == x.id { assert l[0].id == id; }
    if k :| 0 <= k < |ssTL| && ssTL[k].id == id { assert l[k + 1].id == id; }
  }

  /** The step that lists an SSTable takes its memtable off the flushing list. */
  lemma ListKeeps(s: Store, i: nat)
    requires Inv(s) && Step(s, Handler(i, List(true))).Some?
    ensures Inv(Step(s, Handler(i, List(true))).value)
  {
    hide Fold, Remove, Listed, TaskStep;
    var t, s' := s.tasks[i], Step(s, Handler(i, List(true))).value;
    TaskStepKeeps(t, s.tables[t.mt], List(true));
    ListingStep(t, s.tables[t.mt]);
    RemoveIs(s.flushingMTL, i);
    var x := SST(i, t.rows);
    forall id: nat ensures Listed(s'.ssTL, id) <==> id == i || Listed(s.ssTL, id) {
      ListedMore(s.ssTL, x, id);
    }
    NewId(s, i);
    assert forall k :: 0 <= k < |s'.tasks| && k != i ==> s'.tasks[k] == s.tasks[k];
    assert forall k :: 0 < k < |s'.ssTL| ==> s'.ssTL[k] == s.ssTL[k - 1];
    assert forall j :: 0 <= j < |s'.flushingMTL| ==> s'.flushingMTL[j] in s'.flushingMTL;
  }

  lemma ListingStep(t: Task, arrivals: seq<Mutation>)
    requires TaskStep(t, arrivals, List(true)).Some?
    ensures t.flush.Listing? && TaskStep(t, arrivals, List(true)).value == t.(flush := Removed)
  {
  }

  lemma NewId(s: Store, i: nat)
    requires Inv(s) && i < |s.tasks| && s.tasks[i].flush.Listing?
    ensures i in s.flushingMTL && !Listed(s.ssTL, i) && forall k :: 0 <= k < |s.ssTL| ==> s.ssTL[k].id != i
  {
  }

  lemma StepKeeps(s: Store, a: Action)
    requires Inv(s) && Step(s, a).Some?
    ensures Inv(Step(s, a).value)
  {
    hide Kept, Faithful, GoodTask, TaskStep, Swap, Fold, Remove;
    match a
    case Insert(m) =>
      InsertKeeps(s, s.tables[s.curMT] + [m]);
      SwapKeeps(s.(tables := s.tables[s.curMT := s.tables[s.curMT] + [m]]));
    case Force => SwapKeeps(s);
    case Handler(i, step) =>
      if step == List(true) {
        ListKeeps(s, i);
      } else {
        HandlerKeeps(s, i, step);
      }
  }

  // ---- every run ---------------------------------------------------------------------------------------------

  ghost predicate Ready(s: Store) {
    s.curMT < |s.tables| && forall t :: t in s.tasks ==> t.mt < |s.tables|
  }

  ghost predicate Reaches(actions: seq<Action>, s: Store)
    decreases |actions|
  {
    if actions == [] then s == NEW
    else
      exists before: Store :: Reaches(actions[..|actions| - 1], before) && Ready(before) &&
                              Step(before, actions[|actions| - 1]) == Some(s)
  }

  /** The mutations that a run accepted, in order. */
  function Accepted(actions: seq<Action>): seq<Mutation> {
    if actions == [] then []
    else Accepted(actions[..|actions| - 1]) +
         if actions[|actions| - 1].Insert? then [actions[|actions| - 1].m] else []
  }

  /** The memtables are filled one after the other. */
  lemma StepFills(s: Store, a: Action)
    requires Inv(s) && Step(s, a).Some?
    ensures Concat(Step(s, a).value.tables) == Concat(s.tables) + if a.Insert? then [a.m] else []
  {
    hide Fold, Kept, Faithful, TaskStep;
    var n := |s.tables| - 1;
    match a
    case Insert(m) =>
      var tables := s.tables[n := s.tables[n] + [m]];
      assert tables[..n] == s.tables[..n];
      ConcatEmpty(tables);
      assert Concat(s.tables[..n]) + (s.tables[n] + [m]) == Concat(s.tables) + [m];
    case Force => ConcatEmpty(s.tables);
    case Handler(i, step) =>
  }

  lemma ConcatEmpty<T>(ss: seq<seq<T>>)
    ensures Concat(ss + [[]]) == Concat(ss)
  {
    assert (ss + [[]])[..|ss|] == ss;
    assert Concat(ss) + [] == Concat(ss);
  }

  lemma {:induction false} EveryRun(actions: seq<Action>, s: Store)
    requires Reaches(actions, s)
    ensures Inv(s) && Concat(s.tables) == Accepted(actions)
    decreases |actions|
  {
    hide Step, Inv, Concat;
    if actions == [] {
      NewIsGood();
    } else {
      var init, a := actions[..|actions| - 1], actions[|actions| - 1];
      var before: Store :| Reaches(init, before) && Ready(before) && Step(before, a) == Some(s);
      EveryRun(init, before);
      StepKeeps(before, a);
      StepFills(before, a);
    }
  }

  lemma NewIsGood()
    ensures Inv(NEW) && Concat(NEW.tables) == []
  {
    assert NEW.tables == [[]];
    assert NEW.tables[..0] == [];
  }

  /** Where the memtable `i` is. */
  ghost predicate HeldOnce(s: Store, i: nat) {
    (if i == s.curMT then 1 else 0) + (if i in s.flushingMTL then 1 else 0) + (if Listed(s.ssTL, i) then 1 else 0) == 1
  }

  /** In every run, what was accepted is the contents of the memtables, and each of these is in exactly one
      place: the current one, on the flushing list, or in one listed SSTable that has all its rows. */
  lemma NothingIsLost(actions: seq<Action>, s: Store)
    requires Reaches(actions, s)
    ensures Concat(s.tables) == Accepted(actions)
    ensures forall i :: 0 <= i < |s.tables| ==> HeldOnce(s, i)
    ensures forall k :: 0 <= k < |s.ssTL| ==> s.ssTL[k].id < |s.tables| && s.ssTL[k].rows == Fold(s.tables[s.ssTL[k].id]).rows
  {
    hide Fold, Concat;
    EveryRun(actions, s);
    forall i | 0 <= i < |s.tables| ensures HeldOnce(s, i) {
      if i == s.curMT {
        assert !Listed(s.ssTL, i);
        assert i !in s.flushingMTL;
      }
    }
  }

  /** A memtable leaves the flushing list only in the step that lists the SSTable with its rows, and only
      after its sync. */
  lemma LeavesWhenListed(s: Store, a: Action, i: nat)
    requires Inv(s) && Step(s, a).Some? && i in s.flushingMTL && i !in Step(s, a).value.flushingMTL
    ensures a == Handler(i, List(true)) && !Listed(s.ssTL, i)
    ensures Step(s, a).value.ssTL == [SST(i, Fold(s.tables[i]).rows)] + s.ssTL && s.tasks[i].clHeaderUpdate
  {
    hide Fold, Faithful;
    assert forall x :: x in s.flushingMTL ==> x in [s.curMT] + s.flushingMTL;
    if a.Handler? {
      RemoveIs(s.flushingMTL, s.tasks[a.i].mt);
    }
  }

  /** A memtable that is not the current one takes no more mutations. */
  lemma Frozen(s: Store, a: Action, i: nat)
    requires Inv(s) && Step(s, a).Some? && i < |s.tables| && i != s.curMT
    ensures i != Step(s, a).value.curMT && Step(s, a).value.tables[i] == s.tables[i]
  {
    hide Fold, Kept, Faithful, GoodTask, TaskStep;
  }

  // ---- the references to a task ---------------------------------------------------------------------------------

  /** The steps of a run in which the handlers of the flush task `i` give their references up. */
  function OpsOf(actions: seq<Action>, i: nat): Ops {
    if actions == [] then []
    else
      var a := actions[|actions| - 1];
      OpsOf(actions[..|actions| - 1], i) + if a.Handler? && a.i == i && a.step.Release? then [(a.step.who, a.step.op)] else []
  }

  /** What a step makes of the references to the flush task `i`. */
  lemma StepRefs(before: Store, a: Action, i: nat)
    requires Ready(before) && Step(before, a).Some?
    ensures var s := Step(before, a).value;
            && |s.tasks| >= |before.tasks|
            && (a.Handler? && a.i == i ==> i < |before.tasks|)
            && (i < |s.tasks| ==>
                  if i >= |before.tasks| then s.tasks[i].refs == TWO
                  else if a.Handler? && a.i == i && a.step.Release? then RefStep(before.tasks[i].refs, a.step.who, a.step.op) == Some(s.tasks[i].refs)
                  else s.tasks[i].refs == before.tasks[i].refs)
  {
    hide Fold, RefStep, Remove;
  }

  lemma {:induction false} RefsFollow(actions: seq<Action>, s: Store, i: nat)
    requires Reaches(actions, s)
    ensures i < |s.tasks| ==> RunRefs(OpsOf(actions, i)) == Some(s.tasks[i].refs)
    ensures i >= |s.tasks| ==> OpsOf(actions, i) == []
    decreases |actions|
  {
    hide Step, RefStep;
    if actions != [] {
      var init, a := actions[..|actions| - 1], actions[|actions| - 1];
      var before: Store :| Reaches(init, before) && Ready(before) && Step(before, a) == Some(s);
      RefsFollow(init, before, i);
      StepRefs(before, a, i);
      var ops := OpsOf(init, i);
      assert ops + [] == ops;
      if a.Handler? && a.i == i && a.step.Release? {
        assert (ops + [(a.step.who, a.step.op)])[..|ops|] == ops;
      }
    }
  }

  /** In every run, once both handlers are through: the flush task was freed exactly once if and only if neither
      decrement fell between the other handler's decrement and its test. Otherwise it was never freed, when an
      update of the count was lost, or it was freed twice. */
  lemma FreedOnceIffNotRaced(actions: seq<Action>, s: Store, i: nat)
    requires Reaches(actions, s) && i < |s.tasks| && s.tasks[i].refs.flusher.GivenUp? && s.tasks[i].refs.syncer.GivenUp?
    ensures s.tasks[i].refs.freed == 1 <==> !Raced(OpsOf(actions, i))
    ensures s.tasks[i].refs.freed == 0 <==> Lost(OpsOf(actions, i))
    ensures s.tasks[i].refs.freed == 2 <==> Raced(OpsOf(actions, i)) && !Lost(OpsOf(actions, i))
  {
    RefsFollow(actions, s, i);
    TaskRefs.FreedOnceIffNotRaced(OpsOf(actions, i));
  }

  /** In every run with a lock around `decrFlushTask`: a task is freed when both its handlers are through, and
      then once; it is never used after. */
  lemma FreedOnceWhenLocked(actions: seq<Action>, s: Store, i: nat, step: HandlerStep)
    requires Reaches(actions, s) && i < |s.tasks| && Locked(OpsOf(actions, i))
    ensures s.tasks[i].refs.freed == if s.tasks[i].refs.flusher.GivenUp? && s.tasks[i].refs.syncer.GivenUp? then 1 else 0
    ensures Ready(s) && (s.tasks[i].refs.freed == 1 ==> Step(s, Handler(i, step)) == None)
  {
    hide Fold, Kept, Faithful, Concat, Raced, Lost, Tells, Locked, StateIs, GoodRefs, Reaches, OpsOf, RunRefs, RefStep;
    EveryRun(actions, s);
    RefsFollow(actions, s, i);
    LockedDoNotRace(OpsOf(actions, i));
    RunIs(OpsOf(actions, i));
    NotRacedFrees(s.tasks[i].refs, Lost(OpsOf(actions, i)));
    assert GoodTask(s.tasks[i], s.tables[i]);
    if s.tasks[i].refs.freed == 1 {
      NothingLeft(s.tasks[i], s.tables[i], step);
    }
  }

  lemma NotRacedFrees(r: Refs, lost: bool)
    requires StateIs(r, false, lost)
    ensures r.freed == if r.flusher.GivenUp? && r.syncer.GivenUp? then 1 else 0
  {
  }

  lemma NothingLeft(t: Task, arrivals: seq<Mutation>, step: HandlerStep)
    requires GoodTask(t, arrivals) && t.refs.flusher.GivenUp? && t.refs.syncer.GivenUp?
    ensures TaskStep(t, arrivals, step) == None
  {
    hide GoodRefs, Fold;
    assert AtEnd(t, Flusher) && AtEnd(t, Syncer);
  }

  /** The forced flush of an empty memtable, up to where both handlers give their references up. */
  const EMPTY_FLUSH: seq<Action> := [Force] + [Handler(0, Open(false))] + [Handler(0, SyncLog(true))] + [Handler(0, Update)]

  function Releases(ops: Ops): seq<Action> {
    if ops == [] then [] else Releases(ops[..|ops| - 1]) + [Handler(0, Release(ops[|ops| - 1].0, ops[|ops| - 1].1))]
  }

  /** Without one, every order of the steps happens: after the forced flush of an empty memtable, for which no
      SSTable is made. */
  lemma {:induction false} EveryOrderHappens(ops: Ops) returns (actions: seq<Action>, t: Task)
    requires RunRefs(ops).Some?
    ensures Reaches(actions, Forced(t)) && OpsOf(actions, 0) == ops && Some(t.refs) == RunRefs(ops)
    ensures t.mt == 0 && AtEnd(t, Flusher) && AtEnd(t, Syncer) && actions == EMPTY_FLUSH + Releases(ops)
  {
    hide Reaches, RefStep, Fold, OpsOf, EMPTY_FLUSH;
    if ops == [] {
      actions, t := EmptyFlush();
    } else {
      var init, x := ops[..|ops| - 1], ops[|ops| - 1];
      actions, t := EveryOrderHappens(init);
      actions, t := More(actions, t, Release(x.0, x.1));
      assert init + [x] == ops;
    }
  }

  /** A task whose handlers are both about to give it up. */
  lemma EmptyFlush() returns (actions: seq<Action>, t: Task)
    ensures actions == EMPTY_FLUSH
    ensures t == Task(0, true, map[], false, GaveUp, Updated, TWO)
    ensures Reaches(actions, Forced(t)) && OpsOf(actions, 0) == []
  {
    t := Task(0, false, map[], false, Start, ToSync, TWO);
    actions := [Force];
    FirstForce(t);
    assert [Force][..0] == [] && OpsOf([Force], 0) == [];
    EmptyFlushSteps(t);
    hide Reaches, Step, TaskStep, OpsOf;
    actions, t := More(actions, t, Open(false));
    actions, t := More(actions, t, SyncLog(true));
    actions, t := More(actions, t, Update);
  }

  lemma EmptyFlushSteps(t: Task)
    requires t == Task(0, false, map[], false, Start, ToSync, TWO)
    ensures TaskStep(t, [], Open(false)) == Some(t.(flush := GaveUp))
    ensures TaskStep(t.(flush := GaveUp), [], SyncLog(true)) == Some(t.(flush := GaveUp, sync := ToUpdate))
    ensures TaskStep(t.(flush := GaveUp, sync := ToUpdate), [], Update) == Some(t.(flush := GaveUp, sync := Updated, clHeaderUpdate := true))
  {
    hide Fold, RefStep;
  }

  /** So a flush task may be freed twice, or never. */
  lemma FreedTwiceOrNever() returns (twice: seq<Action>, s: Store, never: seq<Action>, r: Store)
    ensures twice == EMPTY_FLUSH + Releases([(Flusher, LoadCount), (Flusher, StoreCount), (Syncer, LoadCount),
                                             (Syncer, StoreCount), (Flusher, TestCount), (Syncer, TestCount)])
    ensures Reaches(twice, s) && |s.tasks| == 1 && s.tasks[0].refs == Refs(0, 2, GivenUp, GivenUp)
    ensures never == EMPTY_FLUSH + Releases([(Flusher, LoadCount), (Syncer, LoadCount), (Flusher, StoreCount),
                                             (Syncer, StoreCount), (Flusher, TestCount), (Syncer, TestCount)])
    ensures Reaches(never, r) && |r.tasks| == 1 && r.tasks[0].refs == Refs(1, 0, GivenUp, GivenUp)
  {
    hide Reaches, RunRefs, Releases, EMPTY_FLUSH;
    TwiceFreed();
    NeverFreed();
    var t, u;
    twice, t := EveryOrderHappens([(Flusher, LoadCount), (Flusher, StoreCount), (Syncer, LoadCount), (Syncer, StoreCount), (Flusher, TestCount), (Syncer, TestCount)]);
    never, u := EveryOrderHappens([(Flusher, LoadCount), (Syncer, LoadCount), (Flusher, StoreCount), (Syncer, StoreCount), (Flusher, TestCount), (Syncer, TestCount)]);
    s, r := Forced(t), Forced(u);
  }

  /** A store after one forced flush. */
  function Forced(t: Task): Store {
    Store([[], []], 1, [0], [], [t])
  }

  lemma FirstForce(t: Task)
    requires t == Task(0, false, map[], false, Start, ToSync, TWO)
    ensures Reaches([Force], Forced(t))
  {
    assert Reaches([], NEW) && [Force][..0] == [] && Ready(NEW) && Step(NEW, Force) == Some(Swap(NEW));
    assert Swap(NEW) == Forced(t) by {
      assert NEW.tables + [[]] == [[], []] && [NEW.curMT] + NEW.flushingMTL == [0];
    }
  }

  lemma ForcedStep(t: Task, step: HandlerStep)
    requires t.mt == 0 && TaskStep(t, [], step).Some? && !step.List?
    ensures Ready(Forced(t)) && Step(Forced(t), Handler(0, step)) == Some(Forced(TaskStep(t, [], step).value))
  {
    hide TaskStep;
    assert [t][0 := TaskStep(t, [], step).value] == [TaskStep(t, [], step).value];
  }

  lemma More(actions: seq<Action>, t: Task, step: HandlerStep) returns (actions': seq<Action>, t': Task)
    requires Reaches(actions, Forced(t)) && t.mt == 0 && TaskStep(t, [], step).Some? && !step.List?
    ensures actions' == actions + [Handler(0, step)] && t' == TaskStep(t, [], step).value && Reaches(actions', Forced(t'))
    ensures OpsOf(actions', 0) == OpsOf(actions, 0) + if step.Release? then [(step.who, step.op)] else []
  {
    hide TaskStep, Step, Ready, Forced;
    actions', t' := actions + [Handler(0, step)], TaskStep(t, [], step).value;
    assert actions'[..|actions|] == actions;
    ForcedStep(t, step);
  }
}
