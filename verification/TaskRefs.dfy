/** The references to a flush task (incrFlushTask and decrFlushTask, db/columnFamilyStore.c). Its two handlers
    run on two threads, and no lock is held around `refCount--` and the test that follows: a handler loads the
    count, stores it less one, and tests it, and the other may come in between. */
module TaskRefs {
  import opened Columns

  datatype Who = Flusher | Syncer

  datatype Op = LoadCount | StoreCount | TestCount

  /** What a handler has done to give its reference up. */
  datatype Ref = Held | Loaded(count: int) | Stored | GivenUp

  datatype Refs = Refs(refCount: int, freed: nat, flusher: Ref, syncer: Ref)

  /** After `getFlushTask` and `incrFlushTask`. */
  const TWO: Refs := Refs(2, 0, Held, Held)

  function Other(who: Who): Who {
    if who.Flusher? then Syncer else Flusher
  }

  function Of(r: Refs, who: Who): Ref {
    if who.Flusher? then r.flusher else r.syncer
  }

  function With(r: Refs, who: Who, x: Ref): Refs {
    if who.Flusher? then r.(flusher := x) else r.(syncer := x)
  }

  /** One step of `decrFlushTask`, when it is this handler's next. */
  function RefStep(r: Refs, who: Who, op: Op): Option<Refs> {
    var x := Of(r, who);
    match op
    case LoadCount => if x.Held? then Some(With(r, who, Loaded(r.refCount))) else None
    case StoreCount => if x.Loaded? then Some(With(r, who, Stored).(refCount := x.count - 1)) else None
    case TestCount => if x.Stored? then Some(With(r, who, GivenUp).(freed := r.freed + if r.refCount == 0 then 1 else 0)) else None
  }

  type Ops = seq<(Who, Op)>

  function RunRefs(ops: Ops): Option<Refs> {
    if ops == [] then Some(TWO)
    else
      match RunRefs(ops[..|ops| - 1])
      case None => None
      case Some(r) => RefStep(r, ops[|ops| - 1].0, ops[|ops| - 1].1)
  }

  /** A decrement falls between the other handler's decrement, from its load on, and its test. */
  ghost predicate Raced(ops: Ops) {
    exists k :: 0 <= k < |ops| && ops[k].1 == StoreCount && (Other(ops[k].0), LoadCount) in ops[..k] && (Other(ops[k].0), TestCount) !in ops[..k]
  }

  /** A decrement falls between the load and the store of the other. */
  ghost predicate Lost(ops: Ops) {
    exists k :: 0 <= k < |ops| && ops[k].1 == StoreCount && (Other(ops[k].0), LoadCount) in ops[..k] && (Other(ops[k].0), StoreCount) !in ops[..k]
  }

  /** What a lock around `decrFlushTask` brings about: a handler begins when the other has not, or is through. */
  ghost predicate Locked(ops: Ops) {
    forall k :: 0 <= k < |ops| && ops[k].1 == LoadCount && (Other(ops[k].0), LoadCount) in ops[..k] ==> (Other(ops[k].0), TestCount) in ops[..k]
  }

  lemma RacedSnoc(ops: Ops, x: (Who, Op))
    ensures Raced(ops + [x]) <==> Raced(ops) || (x.1 == StoreCount && (Other(x.0), LoadCount) in ops && (Other(x.0), TestCount) !in ops)
  {
    var all := ops + [x];
    assert all[..|ops|] == ops;
    assert forall k :: 0 <= k < |ops| ==> all[..k] == ops[..k] && all[k] == ops[k];
    if Raced(ops) {
      var k :| 0 <= k < |ops| && ops[k].1 == StoreCount && (Other(ops[k].0), LoadCount) in ops[..k] && (Other(ops[k].0), TestCount) !in ops[..k];
      assert all[k].1 == StoreCount;
    }
    assert all[|ops|] == x;
  }

  lemma LostSnoc(ops: Ops, x: (Who, Op))
    ensures Lost(ops + [x]) <==> Lost(ops) || (x.1 == StoreCount && (Other(x.0), LoadCount) in ops && (Other(x.0), StoreCount) !in ops)
  {
    var all := ops + [x];
    assert all[..|ops|] == ops;
    assert forall k :: 0 <= k < |ops| ==> all[..k] == ops[..k] && all[k] == ops[k];
    if Lost(ops) {
      var k :| 0 <= k < |ops| && ops[k].1 == StoreCount && (Other(ops[k].0), LoadCount) in ops[..k] && (Other(ops[k].0), StoreCount) !in ops[..k];
      assert all[k].1 == StoreCount;
    }
    assert all[|ops|] == x;
  }

  predicate HasStored(x: Ref) { x.Stored? || x.GivenUp? }

  function One(b: bool): nat { if b then 1 else 0 }

  /** What the count and the number of frees are at every stage. */
  ghost predicate StateIs(r: Refs, raced: bool, lost: bool) {
    var f, s := r.flusher, r.syncer;
    if !HasStored(f) && !HasStored(s) then
      r.refCount == 2 && r.freed == 0 && !raced && !lost && (f.Loaded? ==> f.count == 2) && (s.Loaded? ==> s.count == 2)
    else if !HasStored(f) || !HasStored(s) then
      var x := if HasStored(f) then s else f;
      r.refCount == 1 && r.freed == 0 && raced == lost == (x.Loaded? && x.count == 2) && (x.Loaded? ==> x.count == 1 || x.count == 2)
    else if lost then r.refCount == 1 && r.freed == 0 && raced
    else if raced then r.refCount == 0 && r.freed == One(f.GivenUp?) + One(s.GivenUp?)
    else r.refCount == 0 && (f.GivenUp? || s.GivenUp?) && r.freed == One(f.GivenUp? && s.GivenUp?)
  }

  /** A state that some order of the steps leads to. */
  ghost predicate GoodRefs(r: Refs) {
    exists raced, lost :: StateIs(r, raced, lost)
  }

  lemma StepIs(r: Refs, who: Who, op: Op, raced: bool, lost: bool)
    requires StateIs(r, raced, lost) && RefStep(r, who, op).Some?
    ensures var y := Of(r, Other(who));
            StateIs(RefStep(r, who, op).value, raced || (op == StoreCount && !y.Held? && !y.GivenUp?), lost || (op == StoreCount && y.Loaded?))
  {
  }

  /** The steps taken so far tell where each handler is. */
  ghost predicate Tells(ops: Ops, r: Refs) {
    forall who: Who ::
      && ((who, LoadCount) in ops <==> !Of(r, who).Held?)
      && ((who, StoreCount) in ops <==> HasStored(Of(r, who)))
      && ((who, TestCount) in ops <==> Of(r, who).GivenUp?)
  }

  lemma TellsStep(ops: Ops, r: Refs, x: (Who, Op))
    requires Tells(ops, r) && RefStep(r, x.0, x.1).Some?
    ensures Tells(ops + [x], RefStep(r, x.0, x.1).value)
  {
    var r' := RefStep(r, x.0, x.1).value;
    forall who: Who, op: Op ensures (who, op) in ops + [x] <==> (who, op) in ops || (who, op) == x {
    }
    forall who: Who
      ensures (who, LoadCount) in ops + [x] <==> !Of(r', who).Held?
      ensures (who, StoreCount) in ops + [x] <==> HasStored(Of(r', who))
      ensures (who, TestCount) in ops + [x] <==> Of(r', who).GivenUp?
    {
      assert who == x.0 || who == Other(x.0);
    }
  }

  lemma ToldOf(ops: Ops, r: Refs, who: Who)
    requires Tells(ops, r)
    ensures (who, LoadCount) in ops <==> !Of(r, who).Held?
    ensures (who, StoreCount) in ops <==> HasStored(Of(r, who))
    ensures (who, TestCount) in ops <==> Of(r, who).GivenUp?
  {
  }

  lemma {:induction false} RunIs(ops: Ops)
    requires RunRefs(ops).Some?
    ensures Tells(ops, RunRefs(ops).value) && StateIs(RunRefs(ops).value, Raced(ops), Lost(ops))
  {
    hide StateIs, Raced, Lost, Tells, RefStep;
    if ops == [] {
      NothingYet();
    } else {
      var init, x := ops[..|ops| - 1], ops[|ops| - 1];
      assert init + [x] == ops;
      RunIs(init);
      var r := RunRefs(init).value;
      RacedSnoc(init, x);
      LostSnoc(init, x);
      TellsStep(init, r, x);
      ToldOf(init, r, Other(x.0));
      StepIs(r, x.0, x.1, Raced(init), Lost(init));
    }
  }

  lemma NothingYet()
    ensures !Raced([]) && !Lost([]) && StateIs(TWO, false, false) && Tells([], TWO)
  {
  }

  /** The steps of one handler. */
  function By(ops: Ops, who: Who): seq<Op> {
    if ops == [] then [] else By(ops[..|ops| - 1], who) + if ops[|ops| - 1].0 == who then [ops[|ops| - 1].1] else []
  }

  /** How far a handler has come. */
  function DoneBy(x: Ref): seq<Op> {
    match x
    case Held => []
    case Loaded(_) => [LoadCount]
    case Stored => [LoadCount, StoreCount]
    case GivenUp => [LoadCount, StoreCount, TestCount]
  }

  const ALL: seq<Op> := [LoadCount, StoreCount, TestCount]

  /** The next step of a handler. */
  lemma NextOf(x: Ref, op: Op)
    ensures DoneBy(x) == ALL[..|DoneBy(x)|]
    ensures DoneBy(x) + [op] <= ALL <==> |DoneBy(x)| < 3 && op == ALL[|DoneBy(x)|]
  {
    var done, mine := DoneBy(x), DoneBy(x) + [op];
    assert mine[|done|] == op;
    if |done| < 3 && op == ALL[|done|] {
      assert mine == ALL[..|mine|];
    }
  }

  lemma NextInOrder(r: Refs, who: Who, op: Op)
    ensures RefStep(r, who, op).Some? <==> DoneBy(Of(r, who)) + [op] <= ALL
    ensures RefStep(r, who, op).Some? ==>
              var r' := RefStep(r, who, op).value; DoneBy(Of(r', who)) == DoneBy(Of(r, who)) + [op] && Of(r', Other(who)) == Of(r, Other(who))
  {
    NextOf(Of(r, who), op);
  }

  /** The handlers may take their steps in any order in which each takes its own one after the other. */
  lemma {:induction false} RunsIffInOrder(ops: Ops)
    ensures RunRefs(ops).Some? <==> By(ops, Flusher) <= ALL && By(ops, Syncer) <= ALL
    ensures RunRefs(ops).Some? ==> By(ops, Flusher) == DoneBy(RunRefs(ops).value.flusher) && By(ops, Syncer) == DoneBy(RunRefs(ops).value.syncer)
  {
    hide RefStep, DoneBy;
    if ops == [] {
      NothingDone();
    } else {
      var init, x := ops[..|ops| - 1], ops[|ops| - 1];
      RunsIffInOrder(init);
      assert By(ops, x.0) == By(init, x.0) + [x.1] && By(ops, Other(x.0)) == By(init, Other(x.0)) + [];
      assert By(init, x.0) <= By(ops, x.0) && By(init, Other(x.0)) == By(ops, Other(x.0));
      if RunRefs(init).Some? {
        NextInOrder(RunRefs(init).value, x.0, x.1);
      }
    }
  }

  lemma NothingDone()
    ensures DoneBy(Of(TWO, Flusher)) == [] && DoneBy(Of(TWO, Syncer)) == []
  {
  }

  /** When both handlers are through: the flush task was freed exactly once if and only if neither decrement fell
      between the other's decrement and its test. Otherwise it was never freed, if an update was lost, or twice. */
  lemma FreedOnceIffNotRaced(ops: Ops)
    requires RunRefs(ops).Some? && RunRefs(ops).value.flusher.GivenUp? && RunRefs(ops).value.syncer.GivenUp?
    ensures RunRefs(ops).value.freed == 1 <==> !Raced(ops)
    ensures RunRefs(ops).value.freed == 0 <==> Lost(ops)
    ensures RunRefs(ops).value.freed == 2 <==> Raced(ops) && !Lost(ops)
  {
    hide Raced, Lost;
    RunIs(ops);
  }

  /** With a lock around `decrFlushTask` they do not race. */
  lemma {:induction false} LockedDoNotRace(ops: Ops)
    requires RunRefs(ops).Some? && Locked(ops)
    ensures !Raced(ops) && var r := RunRefs(ops).value; forall who: Who :: Of(r, who).Held? || Of(r, who).GivenUp? || Of(r, Other(who)).Held? || Of(r, Other(who)).GivenUp?
  {
    hide Raced, Tells, StateIs;
    if ops == [] {
      NothingYet();
    } else {
      var init, x := ops[..|ops| - 1], ops[|ops| - 1];
      assert init + [x] == ops;
      assert forall k :: 0 <= k < |init| ==> init[..k] == ops[..k] && init[k] == ops[k];
      LockedDoNotRace(init);
      RunIs(init);
      ToldOf(init, RunRefs(init).value, Other(x.0));
      RacedSnoc(init, x);
    }
  }

  /** Both handlers test after both decrements: each frees the flush task. */
  lemma TwiceFreed()
    ensures RunRefs([(Flusher, LoadCount), (Flusher, StoreCount), (Syncer, LoadCount), (Syncer, StoreCount), (Flusher, TestCount), (Syncer, TestCount)])
         == Some(Refs(0, 2, GivenUp, GivenUp))
  {
    var ops := [(Flusher, LoadCount), (Flusher, StoreCount), (Syncer, LoadCount), (Syncer, StoreCount), (Flusher, TestCount), (Syncer, TestCount)];
    assert ops[..5][..4] == ops[..4] && ops[..4][..3] == ops[..3] && ops[..3][..2] == ops[..2] && ops[..2][..1] == ops[..1] && ops[..1][..0] == [];
    assert RunRefs(ops[..1]) == Some(Refs(2, 0, Loaded(2), Held));
    assert RunRefs(ops[..2]) == Some(Refs(1, 0, Stored, Held));
    assert RunRefs(ops[..3]) == Some(Refs(1, 0, Stored, Loaded(1)));
    assert RunRefs(ops[..4]) == Some(Refs(0, 0, Stored, Stored));
    assert RunRefs(ops[..5]) == Some(Refs(0, 1, GivenUp, Stored));
  }

  /** Both handlers load before either stores: nobody frees it. */
  lemma NeverFreed()
    ensures RunRefs([(Flusher, LoadCount), (Syncer, LoadCount), (Flusher, StoreCount), (Syncer, StoreCount), (Flusher, TestCount), (Syncer, TestCount)])
         == Some(Refs(1, 0, GivenUp, GivenUp))
  {
    var ops := [(Flusher, LoadCount), (Syncer, LoadCount), (Flusher, StoreCount), (Syncer, StoreCount), (Flusher, TestCount), (Syncer, TestCount)];
    assert ops[..5][..4] == ops[..4] && ops[..4][..3] == ops[..3] && ops[..3][..2] == ops[..2] && ops[..2][..1] == ops[..1] && ops[..1][..0] == [];
    assert RunRefs(ops[..1]) == Some(Refs(2, 0, Loaded(2), Held));
    assert RunRefs(ops[..2]) == Some(Refs(2, 0, Loaded(2), Loaded(2)));
    assert RunRefs(ops[..3]) == Some(Refs(1, 0, Stored, Loaded(2)));
    assert RunRefs(ops[..4]) == Some(Refs(1, 0, Stored, Stored));
    assert RunRefs(ops[..5]) == Some(Refs(1, 0, GivenUp, Stored));
  }
}
