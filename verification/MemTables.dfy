/** Memtables as values (db/memTable.c): what inserting mutations leaves, and the count that decides
    about flushing. */
module MemTables {
  import opened CStrings
  import opened Columns
  import opened ColumnMerge
  import opened Codec

  const COLUMNCOUNTTHRESHOLD: int := 4000

  function Max(a: uint32, b: uint32): uint32 { if a > b then a else b }

  /** The family that `insertCF` leaves: the later delete marks, and the columns merged. */
  function MergeFamily(f: Family, g: Family): Family {
    Family(Max(f.marked, g.marked), Max(f.local, g.local), Merge(f.cols, g.cols))
  }

  datatype MemT = MemT(rows: map<CStr, Family>, columnCount: int)

  const EMPTY: MemT := MemT(map[], 0)

  /** What `insertMemTable` returns and adds to the count: the columns of a new key, or what `insertCF` says. */
  function InsertReturn(t: MemT, key: CStr, cf: Family): int {
    if key !in t.rows then |cf.cols| else MergeReturn(t.rows[key].cols, cf.cols)
  }

  /** `insertMemTable`. */
  function Insert(t: MemT, key: CStr, cf: Family): MemT {
    MemT(t.rows[key := if key !in t.rows then cf else MergeFamily(t.rows[key], cf)], t.columnCount + InsertReturn(t, key, cf))
  }

  /** `needFlush` says 1. */
  predicate NeedsFlush(t: MemT) {
    t.columnCount > COLUMNCOUNTTHRESHOLD
  }

  /** The memtable after mutations of one family arrived in an empty one. */
  function Fold(ms: seq<Mutation>): MemT {
    if ms == [] then EMPTY else Insert(Fold(ms[..|ms| - 1]), ms[|ms| - 1].key, ms[|ms| - 1].cf)
  }

  lemma FoldSnoc(ms: seq<Mutation>, m: Mutation)
    ensures Fold(ms + [m]) == Insert(Fold(ms), m.key, m.cf)
  {
    assert (ms + [m])[..|ms|] == ms;
  }

  // ---- the count ------------------------------------------------------------------------------------

  /** The columns of all families together. */
  ghost function Total(rows: map<CStr, Family>): nat {
    if rows == map[] then 0
    else
      var key :| key in rows;
      |rows[key].cols| + Total(rows - {key})
  }

  lemma {:induction false} TotalSplit(rows: map<CStr, Family>, key: CStr)
    requires key in rows
    ensures Total(rows) == |rows[key].cols| + Total(rows - {key})
    decreases |rows|
  {
    var k :| k in rows && Total(rows) == |rows[k].cols| + Total(rows - {k});
    if k != key {
      TotalSplit(rows - {k}, key);
      TotalSplit(rows - {key}, k);
      assert rows - {k} - {key} == rows - {key} - {k};
    }
  }

  lemma TotalUpdate(rows: map<CStr, Family>, key: CStr, cf: Family)
    ensures Total(rows[key := cf]) == Total(rows) + |cf.cols| - if key in rows then |rows[key].cols| else 0
  {
    TotalSplit(rows[key := cf], key);
    assert rows[key := cf] - {key} == rows - {key};
    if key in rows {
      TotalSplit(rows, key);
    } else {
      assert rows - {key} == rows;
    }
  }

  /** The column sets that arrived for a key. */
  function Arrived(ms: seq<Mutation>, key: CStr): seq<seq<Column>> {
    if ms == [] then []
    else Arrived(ms[..|ms| - 1], key) + if ms[|ms| - 1].key == key then [ms[|ms| - 1].cf.cols] else []
  }

  /** A mutation whose key arrived before, and each of its names for that key. */
  ghost predicate NothingNew(before: seq<Mutation>, m: Mutation) {
    Arrived(before, m.key) != [] && forall c :: c in m.cf.cols ==> Seen(Arrived(before, m.key), c.name)
  }

  /** How many mutations brought nothing new when they arrived. */
  ghost function Stalls(ms: seq<Mutation>): nat {
    if ms == [] then 0
    else Stalls(ms[..|ms| - 1]) + if NothingNew(ms[..|ms| - 1], ms[|ms| - 1]) then 1 else 0
  }

  ghost predicate SortedFamilies(ms: seq<Mutation>) {
    forall m :: m in ms ==> SortedCols(m.cf.cols)
  }

  lemma {:induction false} FoldSorted(ms: seq<Mutation>)
    requires SortedFamilies(ms)
    ensures forall k :: k in Fold(ms).rows ==> SortedCols(Fold(ms).rows[k].cols)
  {
    if ms != [] {
      var init, m := ms[..|ms| - 1], ms[|ms| - 1];
      FoldSorted(init);
      if m.key in Fold(init).rows {
        MergeSorted(Fold(init).rows[m.key].cols, m.cf.cols);
      }
    }
  }

  // ---- the contents ---------------------------------------------------------------------------------

  lemma MergeIntoNothing(cs: seq<Column>)
    requires SortedCols(cs)
    ensures Merge([], cs) == cs
  {
    forall n: CStr ensures Lookup(Merge([], cs), n) == Lookup(cs, n) {
      MergeLookup([], cs, n);
    }
    MergeSorted([], cs);
    SameLookupSameSet(Merge([], cs), cs);
  }

  /** A memtable has exactly the keys that arrived; a key's columns are all its column sets merged in the
      order of their arrival. */
  lemma {:induction false} FoldIsMergeAll(ms: seq<Mutation>, key: CStr)
    requires SortedFamilies(ms)
    ensures key in Fold(ms).rows <==> Arrived(ms, key) != []
    ensures key in Fold(ms).rows ==> Fold(ms).rows[key].cols == MergeAll(Arrived(ms, key))
    ensures forall cs :: cs in Arrived(ms, key) ==> SortedCols(cs)
  {
    if ms != [] {
      var init, m := ms[..|ms| - 1], ms[|ms| - 1];
      FoldIsMergeAll(init, key);
      if m.key == key {
        var sets := Arrived(ms, key);
        assert sets == Arrived(init, key) + [m.cf.cols];
        assert sets[..|sets| - 1] == Arrived(init, key);
        if key !in Fold(init).rows {
          MergeIntoNothing(m.cf.cols);
        }
      } else {
        assert Arrived(ms, key) == Arrived(init, key);
      }
    }
  }

  /** `mark` is the greatest of the numbers that `of` gives for the mutations of a key. */
  ghost predicate Latest(ms: seq<Mutation>, key: CStr, of: Family -> uint32, mark: uint32) {
    && (forall m :: m in ms && m.key == key ==> of(m.cf) <= mark)
    && (exists m :: m in ms && m.key == key && of(m.cf) == mark)
  }

  /** The delete marks of two families that are merged: at or above both, and one of them. */
  lemma MergedMarks(f: Family, g: Family)
    ensures var r := MergeFamily(f, g);
            && f.marked <= r.marked && g.marked <= r.marked && (r.marked == f.marked || r.marked == g.marked)
            && f.local <= r.local && g.local <= r.local && (r.local == f.local || r.local == g.local)
  {
  }

  /** The delete marks of a key are the latest that arrived for it. */
  lemma {:induction false} MarksAreLatest(ms: seq<Mutation>, key: CStr)
    ensures key in Fold(ms).rows ==> Latest(ms, key, (f: Family) => f.marked, Fold(ms).rows[key].marked)
    ensures key in Fold(ms).rows ==> Latest(ms, key, (f: Family) => f.local, Fold(ms).rows[key].local)
    ensures key !in Fold(ms).rows ==> forall m :: m in ms ==> m.key != key
  {
    hide MergeFamily;
    if ms != [] {
      var init, m := ms[..|ms| - 1], ms[|ms| - 1];
      assert ms == init + [m];
      MarksAreLatest(init, key);
      if key in Fold(init).rows {
        MergedMarks(Fold(init).rows[key], m.cf);
      }
    }
  }

  /** A mutation that brings nothing new for its key takes one off the count. */
  lemma StallsWhen(before: seq<Mutation>, m: Mutation)
    requires SortedFamilies(before) && SortedCols(m.cf.cols)
    ensures m.key in Fold(before).rows ==> SortedCols(Fold(before).rows[m.key].cols)
    ensures NothingNew(before, m) <==> m.key in Fold(before).rows && InsertReturn(Fold(before), m.key, m.cf) == -1
    ensures m.key in Fold(before).rows && !NothingNew(before, m) ==>
              InsertReturn(Fold(before), m.key, m.cf) == NewNames(Fold(before).rows[m.key].cols, m.cf.cols)
    ensures m.key in Fold(before).rows && NothingNew(before, m) ==> NewNames(Fold(before).rows[m.key].cols, m.cf.cols) == 0
  {
    hide Fold, Seen, HasName, SortedCols, MergeReturn, MergeAll;
    FoldIsMergeAll(before, m.key);
    if m.key in Fold(before).rows {
      var sets, cols := Arrived(before, m.key), Fold(before).rows[m.key].cols;
      forall c | c in m.cf.cols ensures SortedCols(cols) && (HasName(cols, c.name) <==> Seen(sets, c.name)) {
        MergeAllNames(sets, c.name);
      }
      MergeAllNames(sets, []);
      MergeReturnIs(cols, m.cf.cols);
      NoNewName(cols, m.cf.cols);
    }
  }

  /** The count falls short of the true total by exactly the mutations that brought nothing new. */
  lemma {:induction false} CountPlusStalls(ms: seq<Mutation>)
    requires SortedFamilies(ms)
    ensures Fold(ms).columnCount + Stalls(ms) == Total(Fold(ms).rows)
  {
    if ms != [] {
      var init, m := ms[..|ms| - 1], ms[|ms| - 1];
      CountPlusStalls(init);
      FoldSorted(init);
      var t := Fold(init);
      var cf := Insert(t, m.key, m.cf).rows[m.key];
      TotalUpdate(t.rows, m.key, cf);
      StallsWhen(init, m);
      if m.key in t.rows {
        MergeGrows(t.rows[m.key].cols, m.cf.cols);
      }
    }
  }

  /** So a memtable that is flushed is as full as its count says, and is missed exactly when the stalls
      make up the difference. */
  lemma FlushedMeansFull(ms: seq<Mutation>)
    requires SortedFamilies(ms)
    ensures NeedsFlush(Fold(ms)) <==> Total(Fold(ms).rows) > COLUMNCOUNTTHRESHOLD + Stalls(ms)
  {
    CountPlusStalls(ms);
  }

  // ---- reading ----------------------------------------------------------------------------------------

  /** `findColumn`. */
  function Read(t: MemT, key: CStr, columnName: CStr): Option<Column> {
    if key in t.rows then Lookup(t.rows[key].cols, columnName) else None
  }

  ghost predicate AllInWindow(base: uint32, ms: seq<Mutation>) {
    forall m :: m in ms ==> SortedCols(m.cf.cols) && InWindow(base, m.cf.cols)
  }

  lemma {:induction false} ArrivedInWindow(base: uint32, ms: seq<Mutation>, key: CStr)
    requires AllInWindow(base, ms)
    ensures AllSets(base, Arrived(ms, key))
  {
    if ms != [] {
      ArrivedInWindow(base, ms[..|ms| - 1], key);
    }
  }

  /** A read gives, of all columns of the name that ever arrived for the key, the one with the maximal
      (del, timestamp), the earliest of those that tie; and nothing exactly when none arrived. */
  lemma ReadIsTheWinner(base: uint32, ms: seq<Mutation>, key: CStr, columnName: CStr) returns (i: nat)
    requires AllInWindow(base, ms)
    ensures Read(Fold(ms), key, columnName).None? <==>
            forall j :: 0 <= j < |Arrived(ms, key)| ==> Lookup(Arrived(ms, key)[j], columnName).None?
    ensures Read(Fold(ms), key, columnName).Some? ==>
              Wins(Arrived(ms, key), columnName, i) && Read(Fold(ms), key, columnName) == Lookup(Arrived(ms, key)[i], columnName)
  {
    FoldIsMergeAll(ms, key);
    ArrivedInWindow(base, ms, key);
    i := MergeAllIsMaximum(base, Arrived(ms, key), columnName);
  }
}
