/** Merging column sets (addColumnSet, db/column.c) as a join of maps from names to columns. */
module ColumnMerge {
  import opened CStrings
  import opened Columns

  /** `addColumnSet`: the columns of `src` are taken out in the order of their names and added. */
  function Merge(target: seq<Column>, src: seq<Column>): seq<Column>
    decreases src
  {
    if src == [] then target else Merge(Put(target, src[0]), src[1..])
  }

  /** What `addColumnSet` returns: the number of new names, or -1 when there was none. */
  function MergeReturn(target: seq<Column>, src: seq<Column>): int {
    var n := |Merge(target, src)| - |target|;
    if n > 0 then n else -1
  }

  lemma {:induction false} MergeSorted(a: seq<Column>, b: seq<Column>)
    requires SortedCols(a)
    ensures SortedCols(Merge(a, b))
    ensures forall x :: x in Merge(a, b) ==> x in a || x in b
    ensures |Merge(a, b)| >= |a|
    decreases b
  {
    if b != [] {
      PutSorted(a, b[0]);
      MergeSorted(Put(a, b[0]), b[1..]);
    }
  }

  predicate HasName(cs: seq<Column>, n: CStr) {
    exists c :: c in cs && c.name == n
  }

  /** How many names of `src` the set `target` does not have. */
  function NewNames(target: seq<Column>, src: seq<Column>): nat {
    if src == [] then 0 else (if HasName(target, src[0].name) then 0 else 1) + NewNames(target, src[1..])
  }

  lemma NamesAfterPut(a: seq<Column>, c: Column, n: CStr)
    requires SortedCols(a)
    ensures HasName(Put(a, c), n) <==> HasName(a, n) || n == c.name
    ensures |Put(a, c)| == |a| + if HasName(a, c.name) then 0 else 1
  {
    PutSorted(a, c);
    PutLookup(a, c, n);
    LookupSound(a, n);
    LookupSound(a, c.name);
    LookupSound(Put(a, c), n);
  }

  lemma {:induction false} OtherNames(a: seq<Column>, c: Column, b: seq<Column>)
    requires SortedCols(a) && forall x :: x in b ==> x.name != c.name
    ensures NewNames(Put(a, c), b) == NewNames(a, b)
  {
    hide Put, HasName;
    if b != [] {
      NamesAfterPut(a, c, b[0].name);
      OtherNames(a, c, b[1..]);
    }
  }

  /** Merging adds the names that were not there. */
  lemma {:induction false} MergeGrows(a: seq<Column>, b: seq<Column>)
    requires SortedCols(a) && SortedCols(b)
    ensures |Merge(a, b)| == |a| + NewNames(a, b)
    decreases b
  {
    hide Put, HasName;
    if b != [] {
      PutSorted(a, b[0]);
      NamesAfterPut(a, b[0], b[0].name);
      HeadOnly(b);
      LookupSound(b[1..], b[0].name);
      OtherNames(a, b[0], b[1..]);
      MergeGrows(Put(a, b[0]), b[1..]);
    }
  }

  lemma {:induction false} NoNewName(a: seq<Column>, b: seq<Column>)
    ensures NewNames(a, b) == 0 <==> forall c :: c in b ==> HasName(a, c.name)
  {
    hide HasName;
    if b != [] {
      NoNewName(a, b[1..]);
      assert b == [b[0]] + b[1..];
    }
  }

  /** `addColumnSet` returns -1 exactly when the target has every name of the source already, also when it has none, and
      otherwise how many it did not have. */
  lemma MergeReturnIs(a: seq<Column>, b: seq<Column>)
    requires SortedCols(a) && SortedCols(b)
    ensures MergeReturn(a, b) == -1 <==> forall c :: c in b ==> HasName(a, c.name)
    ensures MergeReturn(a, b) != -1 ==> MergeReturn(a, b) == NewNames(a, b)
  {
    hide HasName;
    MergeGrows(a, b);
    NoNewName(a, b);
  }

  /** A name stands afterwards for the better of the two columns, the target's on a tie. */
  lemma {:induction false} MergeLookup(a: seq<Column>, b: seq<Column>, n: CStr)
    requires SortedCols(a) && SortedCols(b)
    ensures Lookup(Merge(a, b), n) == Best(Lookup(a, n), Lookup(b, n))
    decreases b
  {
    if b != [] {
      PutSorted(a, b[0]);
      PutLookup(a, b[0], n);
      MergeLookup(Put(a, b[0]), b[1..], n);
      HeadOnly(b);
    }
  }

  lemma MergeIdempotent(a: seq<Column>)
    requires SortedCols(a)
    ensures Merge(a, a) == a
  {
    forall n: CStr ensures Lookup(Merge(a, a), n) == Lookup(a, n) {
      MergeLookup(a, a, n);
    }
    MergeSorted(a, a);
    SameLookupSameSet(Merge(a, a), a);
  }

  // ---- timestamps in a window ---------------------------------------------------------------

  /** The timestamp counted from `base`, round the 32-bit clock. */
  function Age(base: uint32, c: Column): uint32 {
    (c.timestamp - base) % 0x1_0000_0000
  }

  /** All timestamps of `cs` lie in a window of the clock that starts at `base` and is narrower than 2^31. */
  ghost predicate InWindow(base: uint32, cs: seq<Column>) {
    forall c :: c in cs ==> Age(base, c) < 0x8000_0000
  }

  /** Inside a window, a column beats another by (del, timestamp). */
  lemma BeatsByRank(base: uint32, x: Column, y: Column)
    requires Age(base, x) < 0x8000_0000 && Age(base, y) < 0x8000_0000
    ensures Beats(x, y) <==> x.del > y.del || (x.del == y.del && Age(base, x) > Age(base, y))
  {
    var d := Age(base, x) - Age(base, y);
    assert (x.timestamp - y.timestamp) % 0x1_0000_0000 == d % 0x1_0000_0000 by {
      var p, q := x.timestamp - base, y.timestamp - base;
      assert p - q == x.timestamp - y.timestamp;
      assert p == 0x1_0000_0000 * (p / 0x1_0000_0000) + p % 0x1_0000_0000;
      assert q == 0x1_0000_0000 * (q / 0x1_0000_0000) + q % 0x1_0000_0000;
      ModPlus(d, p / 0x1_0000_0000 - q / 0x1_0000_0000);
    }
    if d < 0 {
      assert d % 0x1_0000_0000 == d + 0x1_0000_0000;
    } else {
      assert d % 0x1_0000_0000 == d;
    }
  }

  lemma ModPlus(d: int, k: int)
    ensures (d + 0x1_0000_0000 * k) % 0x1_0000_0000 == d % 0x1_0000_0000
  {
  }

  lemma LookupInWindow(base: uint32, cs: seq<Column>, n: CStr)
    requires InWindow(base, cs)
    ensures Lookup(cs, n).Some? ==> Age(base, Lookup(cs, n).value) < 0x8000_0000
  {
    LookupSound(cs, n);
  }

  lemma BestAssociative(base: uint32, a: Option<Column>, b: Option<Column>, c: Option<Column>)
    requires forall x :: x in [a, b, c] && x.Some? ==> Age(base, x.value) < 0x8000_0000
    ensures Best(Best(a, b), c) == Best(a, Best(b, c))
  {
    assert a in [a, b, c] && b in [a, b, c] && c in [a, b, c];
    if a.Some? && b.Some? && c.Some? {
      BeatsByRank(base, b.value, a.value);
      BeatsByRank(base, c.value, b.value);
      BeatsByRank(base, c.value, a.value);
    }
  }

  lemma MergeAssociative(base: uint32, a: seq<Column>, b: seq<Column>, c: seq<Column>)
    requires SortedCols(a) && SortedCols(b) && SortedCols(c)
    requires InWindow(base, a) && InWindow(base, b) && InWindow(base, c)
    ensures Merge(Merge(a, b), c) == Merge(a, Merge(b, c))
  {
    MergeSorted(a, b);
    MergeSorted(b, c);
    MergeSorted(Merge(a, b), c);
    MergeSorted(a, Merge(b, c));
    forall n: CStr ensures Lookup(Merge(Merge(a, b), c), n) == Lookup(Merge(a, Merge(b, c)), n) {
      MergeLookup(a, b, n);
      MergeLookup(b, c, n);
      MergeLookup(Merge(a, b), c, n);
      MergeLookup(a, Merge(b, c), n);
      LookupInWindow(base, a, n);
      LookupInWindow(base, b, n);
      LookupInWindow(base, c, n);
      BestAssociative(base, Lookup(a, n), Lookup(b, n), Lookup(c, n));
    }
    SameLookupSameSet(Merge(Merge(a, b), c), Merge(a, Merge(b, c)));
  }

  /** Two different columns of one name of which neither beats the other. */
  ghost predicate Tie(a: seq<Column>, b: seq<Column>, n: CStr) {
    && Lookup(a, n).Some? && Lookup(b, n).Some? && Lookup(a, n) != Lookup(b, n)
    && !Beats(Lookup(a, n).value, Lookup(b, n).value)
    && !Beats(Lookup(b, n).value, Lookup(a, n).value)
  }

  /** The order of merging matters exactly when some name is tied. */
  lemma MergeCommutesIffNoTie(base: uint32, a: seq<Column>, b: seq<Column>)
    requires SortedCols(a) && SortedCols(b) && InWindow(base, a) && InWindow(base, b)
    ensures Merge(a, b) == Merge(b, a) <==> forall n: CStr :: !Tie(a, b, n)
  {
    MergeSorted(a, b);
    MergeSorted(b, a);
    forall n: CStr ensures Lookup(Merge(a, b), n) == Lookup(Merge(b, a), n) <==> !Tie(a, b, n) {
      MergeLookup(a, b, n);
      MergeLookup(b, a, n);
      LookupInWindow(base, a, n);
      LookupInWindow(base, b, n);
      if Lookup(a, n).Some? && Lookup(b, n).Some? {
        BeatsByRank(base, Lookup(a, n).value, Lookup(b, n).value);
        BeatsByRank(base, Lookup(b, n).value, Lookup(a, n).value);
      }
    }
    if forall n: CStr :: !Tie(a, b, n) {
      forall n: CStr ensures Lookup(Merge(a, b), n) == Lookup(Merge(b, a), n) {
        assert !Tie(a, b, n);
      }
      SameLookupSameSet(Merge(a, b), Merge(b, a));
    }
  }

  // ---- any number of sets, in the order of their arrival ------------------------------------

  function MergeAll(sets: seq<seq<Column>>): seq<Column> {
    if sets == [] then [] else Merge(MergeAll(sets[..|sets| - 1]), sets[|sets| - 1])
  }

  /** Some of the sets has the name. */
  ghost predicate Seen(sets: seq<seq<Column>>, n: CStr) {
    exists i :: 0 <= i < |sets| && HasName(sets[i], n)
  }

  /** The names after any number of merges are those that came. */
  lemma {:induction false} MergeAllNames(sets: seq<seq<Column>>, n: CStr)
    requires forall cs :: cs in sets ==> SortedCols(cs)
    ensures SortedCols(MergeAll(sets)) && (HasName(MergeAll(sets), n) <==> Seen(sets, n))
  {
    hide HasName, SortedCols;
    if sets == [] {
      NoColumns(n);
    } else {
      var init, last := sets[..|sets| - 1], sets[|sets| - 1];
      assert sets == init + [last] && last in sets;
      MergeAllNames(init, n);
      MergeSorted(MergeAll(init), last);
      MergeNames(MergeAll(init), last, n);
      if i :| 0 <= i < |init| && HasName(init[i], n) {
        assert HasName(sets[i], n);
      }
      assert sets[|init|] == last;
    }
  }

  lemma NoColumns(n: CStr)
    ensures SortedCols([]) && !HasName([], n)
  {
  }

  lemma MergeNames(a: seq<Column>, b: seq<Column>, n: CStr)
    requires SortedCols(a) && SortedCols(b)
    ensures HasName(Merge(a, b), n) <==> HasName(a, n) || HasName(b, n)
  {
    MergeLookup(a, b, n);
    LookupSound(a, n);
    LookupSound(b, n);
    LookupSound(Merge(a, b), n);
  }

  ghost predicate AllSets(base: uint32, sets: seq<seq<Column>>) {
    forall i :: 0 <= i < |sets| ==> SortedCols(sets[i]) && InWindow(base, sets[i])
  }

  /** The set `i` holds the winner for `n`: it beats what arrived earlier, and nothing that arrived
      later beats it. */
  ghost predicate Wins(sets: seq<seq<Column>>, n: CStr, i: nat) {
    && i < |sets| && Lookup(sets[i], n).Some?
    && (forall j :: 0 <= j < i ==> Lookup(sets[j], n).Some? ==> Beats(Lookup(sets[i], n).value, Lookup(sets[j], n).value))
    && (forall j :: i <= j < |sets| ==> Lookup(sets[j], n).Some? ==> !Beats(Lookup(sets[j], n).value, Lookup(sets[i], n).value))
  }

  /** A winner stays one when the next set's column does not beat it, and hands over otherwise. */
  lemma WinsStep(base: uint32, init: seq<seq<Column>>, last: seq<Column>, n: CStr, i: nat)
    requires AllSets(base, init + [last]) && Wins(init, n, i)
    ensures var w, l := Lookup(init[i], n), Lookup(last, n);
            if l.Some? && Beats(l.value, w.value) then Wins(init + [last], n, |init|) else Wins(init + [last], n, i)
  {
    var sets, w, l := init + [last], Lookup(init[i], n), Lookup(last, n);
    assert forall j :: 0 <= j < |init| ==> sets[j] == init[j];
    LookupInWindow(base, sets[i], n);
    LookupInWindow(base, sets[|init|], n);
    if l.Some? {
      BeatsByRank(base, l.value, l.value);
      BeatsByRank(base, l.value, w.value);
      forall j | 0 <= j < |init| && Lookup(sets[j], n).Some? && Beats(l.value, w.value)
        ensures Beats(l.value, Lookup(sets[j], n).value)
      {
        assert j < i ==> Beats(w.value, Lookup(init[j], n).value);
        assert i <= j ==> !Beats(Lookup(init[j], n).value, w.value);
        LookupInWindow(base, sets[j], n);
        BeatsByRank(base, l.value, Lookup(sets[j], n).value);
        BeatsByRank(base, Lookup(sets[j], n).value, w.value);
        BeatsByRank(base, w.value, Lookup(sets[j], n).value);
      }
    }
  }

  /** Whatever was merged, each name is left with the maximum by (del, timestamp), the earliest of
      those that tie; and a name no set has is absent. */
  lemma {:induction false} MergeAllIsMaximum(base: uint32, sets: seq<seq<Column>>, n: CStr) returns (i: nat)
    requires AllSets(base, sets)
    ensures SortedCols(MergeAll(sets)) && InWindow(base, MergeAll(sets))
    ensures Lookup(MergeAll(sets), n).None? ==> forall j :: 0 <= j < |sets| ==> Lookup(sets[j], n).None?
    ensures Lookup(MergeAll(sets), n).Some? ==> Wins(sets, n, i) && Lookup(MergeAll(sets), n) == Lookup(sets[i], n)
  {
    i := 0;
    if sets != [] {
      var k := |sets| - 1;
      var init, last := sets[..k], sets[k];
      i := MergeAllIsMaximum(base, init, n);
      var m := MergeAll(init);
      assert init + [last] == sets;
      MergeSorted(m, last);
      MergeLookup(m, last, n);
      if Lookup(m, n).Some? {
        WinsStep(base, init, last, n, i);
      }
      if Lookup(m, n).None? || (Lookup(last, n).Some? && Beats(Lookup(last, n).value, Lookup(m, n).value)) {
        i := k;
        if Lookup(m, n).None? && Lookup(last, n).Some? {
          forall j | 0 <= j < k ensures Lookup(sets[j], n).None? {
            assert init[j] == sets[j];
          }
          LookupInWindow(base, last, n);
          BeatsByRank(base, Lookup(last, n).value, Lookup(last, n).value);
        }
      }
    }
  }
}
