/** The column family store of db/columnFamilyStore.c: the critical sections that insert, swap memtables and
    list SSTables, on the objects they work on. */
module ColumnFamilyStores {
  import opened CStrings
  import opened Columns
  import opened Codec
  import opened Buffers
  import opened MemTables
  import opened Families
  import opened MemTableObjects
  import opened LogHistory
  import opened CommitLogs
  import FlushProtocol
  import TaskRefs
  import RbShape

  /** What is dispatched to the commit-log thread: serialised mutations to write, families to sync. */
  class LogQueue {
    var tasks: seq<Event>

    constructor ()
      ensures tasks == []
    {
      tasks := [];
    }

    method Dispatch(e: Event)
      modifies this
      ensures tasks == old(tasks) + [e]
    {
      tasks := tasks + [e];
    }
  }

  class FlushTask {
    const mt: MemTable
    ghost const id: nat
    var refCount: int
    var clHeaderUpdate: bool
    ghost var freed: nat

    /** `getFlushTask`. */
    constructor (mt: MemTable, ghost id: nat)
      ensures this.mt == mt && this.id == id && refCount == 1 && !clHeaderUpdate && freed == 0
    {
      this.mt, this.id := mt, id;
      refCount, clHeaderUpdate, freed := 1, false, 0;
    }

    method Incr()
      modifies `refCount
      ensures refCount == old(refCount) + 1
    {
      refCount := refCount + 1;
    }

    /** The load of `refCount--`. */
    method LoadCount() returns (count: int)
      ensures count == refCount
    {
      count := refCount;
    }

    /** Its store. */
    method StoreCount(count: int)
      modifies `refCount
      ensures refCount == count - 1
    {
      refCount := count - 1;
    }

    /** The test behind it. */
    method TestCount()
      modifies `freed
      ensures freed == old(freed) + if refCount == 0 then 1 else 0
    {
      if refCount == 0 {
        FreeHeapFL();
      }
    }

    /** `decrFlushTask`, when nothing comes in between. */
    method Decr()
      modifies `refCount, `freed
      ensures refCount == old(refCount) - 1 && freed == old(freed) + if old(refCount) == 1 then 1 else 0
    {
      var count := LoadCount();
      StoreCount(count);
      TestCount();
    }

    method FreeHeapFL()
      modifies `freed
      ensures freed == old(freed) + 1
    {
      freed := freed + 1;
    }

    /** The object agrees with its counterpart in the protocol. */
    ghost predicate Is(t: FlushProtocol.Task)
      reads this
    {
      t.mt == id && t.refs.refCount == refCount && t.clHeaderUpdate == clHeaderUpdate && t.refs.freed == freed
    }
  }

  /** A memtable that consists of the objects `own` and has the value `v`. */
  ghost predicate TableIs(mt: MemTable, own: set<object>, cfm: Metadata, v: MemT)
    reads own
  {
    mt in own && own == {mt} + mt.parts && mt.Valid() && mt.cfm == cfm && mt.Value() == v
  }

  /** Footprints inside `parts` that share nothing. */
  ghost predicate Split(owns: seq<set<object>>, parts: set<object>) {
    (forall i :: 0 <= i < |owns| ==> owns[i] <= parts) && forall i, j :: 0 <= i < j < |owns| ==> owns[i] !! owns[j]
  }

  ghost predicate TablesAre(made: seq<MemTable>, owns: seq<set<object>>, parts: set<object>, cfm: Metadata, tables: seq<seq<Mutation>>)
    requires |made| == |owns| == |tables| && Split(owns, parts)
    reads parts
  {
    forall i :: 0 <= i < |made| ==> TableIs(made[i], owns[i], cfm, Fold(tables[i]))
  }

  ghost predicate TasksAre(tasks: seq<FlushTask>, taskSet: set<FlushTask>, made: seq<MemTable>, ts: seq<FlushProtocol.Task>)
    reads taskSet
  {
    && |tasks| == |ts| && |ts| <= |made|
    && (forall i :: 0 <= i < |tasks| ==> tasks[i] in taskSet && tasks[i].id == i && tasks[i].mt == made[i] && tasks[i].Is(ts[i]))
  }

  ghost predicate ListIs(l: seq<MemTable>, made: seq<MemTable>, ids: seq<nat>) {
    |l| == |ids| && forall j :: 0 <= j < |l| ==> ids[j] < |made| && l[j] == made[ids[j]]
  }

  ghost predicate FilesAre(l: seq<map<CStr, Family>>, ssTL: seq<FlushProtocol.SST>) {
    |l| == |ssTL| && forall j :: 0 <= j < |l| ==> l[j] == ssTL[j].rows
  }

  /** The fields of a store, with all memtables ever made, their footprints and their tasks, agree with the
      state of the protocol. */
  ghost predicate StoreIs(curMT: MemTable, flushingMTL: seq<MemTable>, ssTL: seq<map<CStr, Family>>,
                          made: seq<MemTable>, owns: seq<set<object>>, parts: set<object>,
                          tasks: seq<FlushTask>, taskSet: set<FlushTask>, s: FlushProtocol.Store, cfm: Metadata)
    reads parts, taskSet
  {
    && (forall t :: t in taskSet ==> t !in parts)
    && FlushProtocol.Inv(s) && |made| == |owns| == |s.tables| && Split(owns, parts)
    && TablesAre(made, owns, parts, cfm, s.tables)
    && curMT == made[s.curMT] && ListIs(flushingMTL, made, s.flushingMTL) && FilesAre(ssTL, s.ssTL)
    && TasksAre(tasks, taskSet, made, s.tasks)
  }

  lemma FirstStore(mt: MemTable, cfm: Metadata)
    requires TableIs(mt, {mt}, cfm, EMPTY)
    ensures StoreIs(mt, [], [], [mt], [{mt}], {mt}, [], {}, FlushProtocol.NEW, cfm)
  {
    hide TableIs, FlushProtocol.Inv;
    FlushProtocol.NewIsGood();
    assert Fold([]) == EMPTY;
  }

  /** All of `StoreIs` but the contents of the memtable `k`. */
  ghost predicate StoreRest(k: nat, made: seq<MemTable>, owns: seq<set<object>>, parts: set<object>,
                            tasks: seq<FlushTask>, taskSet: set<FlushTask>, s: FlushProtocol.Store, cfm: Metadata)
    requires k < |owns| && Split(owns, parts)
    reads parts - owns[k], taskSet
  {
    && (forall t :: t in taskSet ==> t !in parts)
    && FlushProtocol.Inv(s) && |made| == |owns| == |s.tables|
    && (forall i :: 0 <= i < |made| && i != k ==> owns[i] !! owns[k] && owns[i] <= parts && TableIs(made[i], owns[i], cfm, Fold(s.tables[i])))
    && TasksAre(tasks, taskSet, made, s.tasks)
  }

  lemma Unpack(curMT: MemTable, flushingMTL: seq<MemTable>, ssTL: seq<map<CStr, Family>>,
               made: seq<MemTable>, owns: seq<set<object>>, parts: set<object>,
               tasks: seq<FlushTask>, taskSet: set<FlushTask>, s: FlushProtocol.Store, cfm: Metadata)
    requires StoreIs(curMT, flushingMTL, ssTL, made, owns, parts, tasks, taskSet, s, cfm)
    ensures s.curMT < |owns| == |made| == |s.tables| && Split(owns, parts) && owns[s.curMT] <= parts
    ensures StoreRest(s.curMT, made, owns, parts, tasks, taskSet, s, cfm)
    ensures curMT == made[s.curMT] && TableIs(curMT, owns[s.curMT], cfm, Fold(s.tables[s.curMT]))
    ensures ListIs(flushingMTL, made, s.flushingMTL) && FilesAre(ssTL, s.ssTL) && forall t :: t in taskSet ==> t !in parts
  {
    hide TableIs, Fold, FlushProtocol.Kept, FlushProtocol.Faithful, FlushProtocol.GoodTask, TasksAre, ListIs, FilesAre;
  }

  /** The memtable `k` took in a mutation and the objects `other`. */
  lemma Pack(curMT: MemTable, flushingMTL: seq<MemTable>, ssTL: seq<map<CStr, Family>>,
             made: seq<MemTable>, owns: seq<set<object>>, parts: set<object>,
             tasks: seq<FlushTask>, taskSet: set<FlushTask>, s: FlushProtocol.Store, cfm: Metadata,
             now: set<object>, other: set<object>, arrivals: seq<Mutation>)
    requires s.curMT < |owns| == |made| == |s.tables| && Split(owns, parts)
    requires StoreRest(s.curMT, made, owns, parts, tasks, taskSet, s, cfm)
    requires curMT == made[s.curMT] && TableIs(curMT, now, cfm, Fold(arrivals)) && ListIs(flushingMTL, made, s.flushingMTL) && FilesAre(ssTL, s.ssTL)
    requires other !! parts && now <= owns[s.curMT] + other && forall t :: t in taskSet ==> t !in other
    ensures StoreIs(curMT, flushingMTL, ssTL, made, owns[s.curMT := now], parts + other, tasks, taskSet,
                    s.(tables := s.tables[s.curMT := arrivals]), cfm)
  {
    hide TableIs, Fold, FlushProtocol.Inv, TasksAre, ListIs, FilesAre, Split;
    FlushProtocol.InsertKeeps(s, arrivals);
    SplitGrows(owns, parts, s.curMT, now, other);
    assert forall i :: 0 <= i < |made| && i != s.curMT ==> owns[s.curMT := now][i] == owns[i];
  }

  lemma SplitGrows(owns: seq<set<object>>, parts: set<object>, k: nat, now: set<object>, other: set<object>)
    requires k < |owns| && Split(owns, parts) && other !! parts && now <= owns[k] + other
    ensures Split(owns[k := now], parts + other)
  {
    var owns' := owns[k := now];
    forall i, j | 0 <= i < j < |owns'| ensures owns'[i] !! owns'[j] {
      assert owns[i] <= parts && owns[j] <= parts && owns[i] !! owns[j];
    }
    assert forall i :: 0 <= i < |owns| ==> owns[i] <= parts;
  }

  /** `insertMemTable` with its footprints. */
  method PutTable(mt: MemTable, ghost own: set<object>, ghost v: MemT, rm: RowMutation) returns (ret: int, ghost now: set<object>)
    requires rm.Valid() && TableIs(mt, own, rm.cf.cfm, v) && rm !in own && rm.cf.Repr() !! own + {rm}
    modifies own, rm, rm.cf.Repr()
    ensures now <= old(own + rm.cf.Repr())
    ensures TableIs(mt, now, old(rm.cf.cfm), Insert(v, old(rm.key), old(rm.cf.Value()))) && ret == InsertReturn(v, old(rm.key), old(rm.cf.Value()))
  {
    hide MemTable.Valid, RowMutation.Valid, Insert, InsertReturn;
    ret := mt.InsertMemTable(rm);
    now := {mt} + mt.parts;
  }

  class ColumnFamilyStore {
    const cfmd: Metadata
    var curMT: MemTable
    var flushingMTL: seq<MemTable>
    var ssTL: seq<map<CStr, Family>>
    ghost var made: seq<MemTable>
    ghost var owns: seq<set<object>>
    ghost var parts: set<object>
    ghost var tasks: seq<FlushTask>
    ghost var taskSet: set<FlushTask>
    ghost var state: FlushProtocol.Store

    /** `getCFStore`. */
    constructor (cfmd: Metadata)
      ensures Valid() && state == FlushProtocol.NEW && this.cfmd == cfmd
    {
      this.cfmd := cfmd;
      var mt := new MemTable(cfmd);
      curMT, flushingMTL, ssTL := mt, [], [];
      made, owns, parts, tasks, taskSet := [mt], [{mt}], {mt}, [], {};
      state := FlushProtocol.NEW;
      new;
      hide StoreIs;
      NewTable(mt);
      FirstStore(mt, cfmd);
    }

    ghost predicate Valid()
      reads this, parts, taskSet
    {
      this !in parts && StoreIs(curMT, flushingMTL, ssTL, made, owns, parts, tasks, taskSet, state, cfmd)
    }

    /** The insert of `insertCFStore` into the current memtable. */
    method PutRow(rm: RowMutation) returns (ret: int)
      requires Valid() && rm.Valid() && rm.cf.cfm == cfmd && rm !in parts && this !in rm.cf.Repr()
      requires rm.cf.Repr() !! parts + {rm} && forall t :: t in taskSet ==> t !in rm.cf.Repr()
      modifies `owns, `parts, `state, parts, rm, rm.cf.Repr()
      ensures Valid() && parts == old(parts + rm.cf.Repr())
      ensures state == old(state).(tables := old(state).tables[old(state).curMT := old(state).tables[old(state).curMT] + [old(rm.Value())]])
      ensures ret == InsertReturn(Fold(old(state).tables[old(state).curMT]), old(rm.key), old(rm.cf.Value()))
    {
      hide StoreIs, StoreRest, TableIs, ListIs, FilesAre, RowMutation.Valid, Insert, InsertReturn, Split;
      ghost var m, other, s := rm.Value(), rm.cf.Repr(), state;
      ghost var now;
      Unpack(curMT, flushingMTL, ssTL, made, owns, parts, tasks, taskSet, s, cfmd);
      ret, now := PutTable(curMT, owns[s.curMT], Fold(s.tables[s.curMT]), rm);
      FoldSnoc(s.tables[s.curMT], m);
      Pack(curMT, flushingMTL, ssTL, made, owns, parts, tasks, taskSet, s, cfmd, now, other, s.tables[s.curMT] + [m]);
      owns, parts := owns[s.curMT := now], parts + other;
      state := s.(tables := s.tables[s.curMT := s.tables[s.curMT] + [m]]);
    }

    /** The critical section of a flush, on the current memtable. */
    method SwapTable(queue: LogQueue) returns (ft: FlushTask)
      requires Valid() && queue !in parts
      modifies this, queue
      ensures Valid() && state == FlushProtocol.Swap(old(state)) && fresh(parts - old(parts))
      ensures fresh(ft) && ft.mt == old(curMT) && queue.tasks == old(queue.tasks) + [Synced(cfmd.cfID)]
    {
      hide StoreIs, TableIs;
      ft := new FlushTask(curMT, |tasks|);
      var mt := new MemTable(cfmd);
      flushingMTL := [curMT] + flushingMTL;
      curMT := mt;
      ft.Incr();
      queue.Dispatch(Synced(cfmd.cfID));
      NewTable(mt);
      Swapped(mt, ft);
    }

    /** `insertCFStore`: the serialised mutation is dispatched, goes into the memtable, and fills it perhaps. */
    method InsertCFStore(rm: RowMutation, queue: LogQueue) returns (ret: int, ft: FlushTask?)
      requires Valid() && rm.Valid() && rm.cf.cfm == cfmd && rm !in parts && this !in rm.cf.Repr()
      requires rm.cf.Repr() !! parts + {rm} && (forall t :: t in taskSet ==> t !in rm.cf.Repr())
      requires queue !in parts && queue !in rm.cf.Repr()
      modifies this, parts, rm, rm.cf.Repr(), queue
      ensures Valid() && FlushProtocol.Ready(old(state))
      ensures FlushProtocol.Step(old(state), FlushProtocol.Insert(old(rm.Value()))) == Some(state)
      ensures ret == InsertReturn(old(curMT.Value()), old(rm.key), old(rm.cf.Value()))
      ensures ft != null <==> NeedsFlush(Insert(old(curMT.Value()), old(rm.key), old(rm.cf.Value())))
      ensures queue.tasks == old(queue.tasks) + [Appended(cfmd.cfID, EncMutation(old(rm.Value())))] +
                             if ft != null then [Synced(cfmd.cfID)] else []
    {
      hide StoreIs, RowMutation.Valid, Insert, InsertReturn, NeedsFlush, EncMutation, Fold;
      ghost var m, s := rm.Value(), state;
      CurrentTable();
      NodesInRepr(rm);
      var b := Serialised(rm);
      queue.Dispatch(Appended(cfmd.cfID, b));
      FoldSnoc(s.tables[s.curMT], m);
      ret := PutRow(rm);
      CurrentTable();
      var need := curMT.NeedFlush();
      ft := null;
      if need == 1 {
        ft := SwapTable(queue);
      }
    }

    /** The current memtable is what its mutations make of it. */
    lemma CurrentTable()
      requires Valid()
      ensures FlushProtocol.Ready(state) && curMT in parts && curMT.Value() == Fold(state.tables[state.curMT])
    {
      hide Fold, FlushProtocol.Kept, FlushProtocol.Faithful, FlushProtocol.GoodTask;
      assert TableIs(made[state.curMT], owns[state.curMT], cfmd, Fold(state.tables[state.curMT]));
    }

    method Serialised(rm: RowMutation) returns (b: seq<byte>)
      requires rm.Valid()
      ensures b == EncMutation(rm.Value())
    {
      hide EncMutation;
      var buff := new Buffer();
      ghost var before := buff.Written();
      SerializeRM(buff, rm);
      assert before + EncMutation(rm.Value()) == EncMutation(rm.Value());
      b := buff.buff[..buff.pos];
    }

    /** `forceCFSFlush`. */
    method ForceCFSFlush(queue: LogQueue) returns (ft: FlushTask)
      requires Valid() && queue !in parts
      modifies this, queue
      ensures Valid() && FlushProtocol.Ready(old(state))
      ensures FlushProtocol.Step(old(state), FlushProtocol.Force) == Some(state)
      ensures ft.mt == old(curMT) && queue.tasks == old(queue.tasks) + [Synced(cfmd.cfID)]
    {
      CurrentTable();
      ft := SwapTable(queue);
    }

    ghost predicate Mine(ft: FlushTask)
      reads this
    {
      ft in taskSet && ft.id < |tasks| && tasks[ft.id] == ft && ft.id < |state.tasks|
    }

    /** The locked section of `flushingHandler`: the SSTable is listed, its memtable is not flushing any more. */
    method ListSSTable(ft: FlushTask, rows: map<CStr, Family>)
      requires Valid() && Mine(ft) && state.tasks[ft.id].flush.Listing? && state.tasks[ft.id].rows == rows
      modifies `ssTL, `flushingMTL, `state
      ensures Valid() && FlushProtocol.Ready(old(state))
      ensures FlushProtocol.Step(old(state), FlushProtocol.Handler(ft.id, FlushProtocol.List(true))) == Some(state)
    {
      hide TableIs, Fold, FlushProtocol.Kept, FlushProtocol.Faithful, FlushProtocol.GoodTask, FlushProtocol.Remove, RemoveTable;
      CurrentTable();
      ghost var s := state;
      ListingTask(s, tasks, taskSet, made, ft);
      Distinct(made, owns, parts, cfmd, s.tables);
      RemoveMatches(flushingMTL, made, s.flushingMTL, ft.id);
      FlushProtocol.ListKeeps(s, ft.id);
      ssTL := [rows] + ssTL;
      flushingMTL := RemoveTable(flushingMTL, ft.mt);
      state := FlushProtocol.Step(s, FlushProtocol.Handler(ft.id, FlushProtocol.List(true))).value;
    }

    /** The locked section of `synFlushingTask`. */
    method MarkUpdated(ft: FlushTask)
      requires Valid() && Mine(ft) && state.tasks[ft.id].sync.ToUpdate?
      modifies `state, ft
      ensures Valid() && FlushProtocol.Ready(old(state))
      ensures FlushProtocol.Step(old(state), FlushProtocol.Handler(ft.id, FlushProtocol.Update)) == Some(state)
    {
      CurrentTable();
      ft.clHeaderUpdate := true;
      Moved(ft, FlushProtocol.Update);
    }

    /** A handler at its end, about to load the count, to store it, or to test it. */
    ghost predicate Releasing(ft: FlushTask, who: TaskRefs.Who, x: TaskRefs.Ref)
      reads this
    {
      Mine(ft) && FlushProtocol.AtEnd(state.tasks[ft.id], who) && TaskRefs.Of(state.tasks[ft.id].refs, who) == x
    }

    /** The load of `refCount--` in `decrFlushTask`. */
    method LoadCount(ft: FlushTask, who: TaskRefs.Who) returns (count: int)
      requires Valid() && Releasing(ft, who, TaskRefs.Held)
      modifies `state
      ensures Valid() && FlushProtocol.Ready(old(state)) && Releasing(ft, who, TaskRefs.Loaded(count))
      ensures FlushProtocol.Step(old(state), FlushProtocol.Handler(ft.id, FlushProtocol.Release(who, TaskRefs.LoadCount))) == Some(state)
    {
      hide TableIs, Fold, Split, FlushProtocol.Kept, FlushProtocol.Faithful, FlushProtocol.GoodTask;
      CurrentTable();
      count := ft.LoadCount();
      Moved(ft, FlushProtocol.Release(who, TaskRefs.LoadCount));
    }

    /** Its store. */
    method StoreCount(ft: FlushTask, who: TaskRefs.Who, count: int)
      requires Valid() && Releasing(ft, who, TaskRefs.Loaded(count))
      modifies `state, ft
      ensures Valid() && FlushProtocol.Ready(old(state)) && Releasing(ft, who, TaskRefs.Stored)
      ensures FlushProtocol.Step(old(state), FlushProtocol.Handler(ft.id, FlushProtocol.Release(who, TaskRefs.StoreCount))) == Some(state)
    {
      hide TableIs, Fold, Split, FlushProtocol.Kept, FlushProtocol.Faithful, FlushProtocol.GoodTask;
      CurrentTable();
      ft.StoreCount(count);
      Moved(ft, FlushProtocol.Release(who, TaskRefs.StoreCount));
    }

    /** The test behind it. */
    method TestCount(ft: FlushTask, who: TaskRefs.Who)
      requires Valid() && Releasing(ft, who, TaskRefs.Stored)
      modifies `state, ft
      ensures Valid() && FlushProtocol.Ready(old(state)) && Releasing(ft, who, TaskRefs.GivenUp)
      ensures FlushProtocol.Step(old(state), FlushProtocol.Handler(ft.id, FlushProtocol.Release(who, TaskRefs.TestCount))) == Some(state)
    {
      hide TableIs, Fold, Split, FlushProtocol.Kept, FlushProtocol.Faithful, FlushProtocol.GoodTask;
      CurrentTable();
      ft.TestCount();
      Moved(ft, FlushProtocol.Release(who, TaskRefs.TestCount));
    }

    /** The task object made a step; the protocol follows. */
    ghost method Moved(ft: FlushTask, step: FlushProtocol.HandlerStep)
      requires this !in parts && (forall t :: t in taskSet ==> t !in parts)
      requires FlushProtocol.Inv(state) && |made| == |owns| == |state.tables| && Split(owns, parts)
      requires TablesAre(made, owns, parts, cfmd, state.tables)
      requires curMT == made[state.curMT] && ListIs(flushingMTL, made, state.flushingMTL) && FilesAre(ssTL, state.ssTL)
      requires |tasks| == |state.tasks| && Mine(ft) && step != FlushProtocol.List(true)
      requires forall i :: 0 <= i < |tasks| ==> tasks[i] in taskSet && tasks[i].id == i && tasks[i].mt == made[i] && (i != ft.id ==> tasks[i].Is(state.tasks[i]))
      requires var r := FlushProtocol.TaskStep(state.tasks[ft.id], state.tables[state.tasks[ft.id].mt], step); r.Some? && ft.Is(r.value)
      modifies `state
      ensures Valid() && FlushProtocol.Step(old(state), FlushProtocol.Handler(ft.id, step)) == Some(state)
    {
      hide TableIs, Fold, FlushProtocol.Kept, FlushProtocol.Faithful, FlushProtocol.GoodTask, FlushProtocol.TaskStep;
      FlushProtocol.HandlerKeeps(state, ft.id, step);
      state := FlushProtocol.Step(state, FlushProtocol.Handler(ft.id, step)).value;
    }

    /** The ghost side of a swap. */
    ghost method Swapped(mt: MemTable, ft: FlushTask)
      requires this !in parts && flushingMTL != []
      requires StoreIs(flushingMTL[0], flushingMTL[1..], ssTL, made, owns, parts, tasks, taskSet, state, cfmd)
      requires mt !in parts && TableIs(mt, {mt}, cfmd, EMPTY) && ft !in parts && curMT == mt
      requires ft.mt == flushingMTL[0] && ft.id == |tasks| && ft.refCount == 2 && !ft.clHeaderUpdate && ft.freed == 0
      modifies `made, `owns, `parts, `tasks, `taskSet, `state
      ensures Valid() && state == FlushProtocol.Swap(old(state)) && parts == old(parts) + {mt}
    {
      hide TableIs, Fold, Split;
      SplitSnoc(owns, parts, mt);
      FlushProtocol.SwapKeeps(state);
      FoldNothing();
      made, owns, parts := made + [mt], owns + [{mt}], parts + {mt};
      tasks, taskSet := tasks + [ft], taskSet + {ft};
      state := FlushProtocol.Swap(state);
    }
  }

  lemma NewTable(mt: MemTable)
    requires mt.Valid() && mt.Value() == EMPTY && mt.parts == {}
    ensures TableIs(mt, {mt}, mt.cfm, EMPTY)
  {
  }

  lemma NodesInRepr(rm: RowMutation)
    requires rm.Valid()
    ensures RbShape.Nodes(rm.cf.columnorSuper.header.tree) == rm.cf.columnorSuper.header.nodes
  {
  }

  /** LIST_REMOVE of a memtable. */
  function RemoveTable(l: seq<MemTable>, mt: MemTable): seq<MemTable> {
    if l == [] then [] else if l[0] == mt then l[1..] else [l[0]] + RemoveTable(l[1..], mt)
  }

  lemma Distinct(made: seq<MemTable>, owns: seq<set<object>>, parts: set<object>, cfm: Metadata, tables: seq<seq<Mutation>>)
    requires |made| == |owns| == |tables| && Split(owns, parts) && TablesAre(made, owns, parts, cfm, tables)
    ensures forall i, j :: 0 <= i < j < |made| ==> made[i] != made[j]
  {
    hide Fold, MemTable.Valid;
  }

  lemma {:induction false} RemoveMatches(l: seq<MemTable>, made: seq<MemTable>, ids: seq<nat>, i: nat)
    requires ListIs(l, made, ids) && i < |made| && forall j, k :: 0 <= j < k < |made| ==> made[j] != made[k]
    ensures ListIs(RemoveTable(l, made[i]), made, FlushProtocol.Remove(ids, i))
  {
    hide ListIs;
    if l == [] {
      ListNil(l, made, ids);
    } else {
      ListRest(l, made, ids);
      RemoveMatches(l[1..], made, ids[1..], i);
      if ids[0] != i {
        ListCons(l[0], RemoveTable(l[1..], made[i]), made, ids[0], FlushProtocol.Remove(ids[1..], i));
      }
    }
  }

  lemma ListNil(l: seq<MemTable>, made: seq<MemTable>, ids: seq<nat>)
    requires ListIs(l, made, ids) && l == []
    ensures ids == []
  {
  }

  lemma ListRest(l: seq<MemTable>, made: seq<MemTable>, ids: seq<nat>)
    requires ListIs(l, made, ids) && l != []
    ensures |ids| == |l| && ids[0] < |made| && l[0] == made[ids[0]] && ListIs(l[1..], made, ids[1..])
  {
  }

  lemma ListCons(x: MemTable, l: seq<MemTable>, made: seq<MemTable>, id: nat, ids: seq<nat>)
    requires ListIs(l, made, ids) && id < |made| && x == made[id]
    ensures ListIs([x] + l, made, [id] + ids)
  {
  }

  lemma ListingTask(s: FlushProtocol.Store, tasks: seq<FlushTask>, taskSet: set<FlushTask>, made: seq<MemTable>, ft: FlushTask)
    requires FlushProtocol.Inv(s) && TasksAre(tasks, taskSet, made, s.tasks) && ft.id < |tasks| && tasks[ft.id] == ft
    requires s.tasks[ft.id].flush.Listing?
    ensures ft.mt == made[ft.id] && s.tasks[ft.id].mt == ft.id
    ensures FlushProtocol.TaskStep(s.tasks[ft.id], s.tables[ft.id], FlushProtocol.List(true)).Some?
    ensures forall t' :: FlushProtocol.TaskStep(s.tasks[ft.id], s.tables[ft.id], FlushProtocol.List(true)) == Some(t') ==> t' == s.tasks[ft.id].(flush := FlushProtocol.Removed)
  {
  }

  lemma FoldNothing()
    ensures Fold([]) == EMPTY
  {
  }

  lemma SplitSnoc(owns: seq<set<object>>, parts: set<object>, mt: MemTable)
    requires Split(owns, parts) && mt !in parts
    ensures Split(owns + [{mt}], parts + {mt})
  {
    var owns' := owns + [{mt}];
    forall i, j | 0 <= i < j < |owns'| ensures owns'[i] !! owns'[j] {
      if j == |owns| { assert owns[i] <= parts; }
    }
  }
}
