/** How a dictionary's rehash gets done by its operations (dictAdd, dictReplace, dictFind, dictDelete and _dictRehashStep,
    utils/dict.c), and where they put an entry. */
module DictProgress {
  import opened CStrings
  import opened Columns
  import opened DictTables
  import opened DictOps
  import opened Dicts
  import opened DictHistory

  /** A new entry is the first of the bucket that is the remainder of its hash: of the second table while a rehash is under
      way, so that nothing is added to the first; and nothing else changes. */
  lemma InsertGoes<V>(hash: Hash, s: State<V>, e: Entry<V>)
    requires DictOps.Inv(hash, s) && s.t0 != []
    ensures var r := Insert(hash, s, e);
            if Rehashing(s) then
              var i := hash(e.key) % |s.t1|; r == s.(t1 := r.t1) && r.t1 == s.t1[i := [e] + s.t1[i]]
            else
              var i := hash(e.key) % |s.t0|; r == s.(t0 := r.t0) && r.t0 == s.t0[i := [e] + s.t0[i]]
  {
    hide Placed, IndexOf, Bag, Unique, Power;
    IndexIsRemainder(hash, e.key, if Rehashing(s) then |s.t1| else |s.t0|);
  }

  /** The second table has taken the place of the first. */
  predicate Over<V>(s: State<V>, r: State<V>) { |r.t0| == |s.t1| }

  /** The same tables by their lengths, with less left to move. */
  ghost predicate Further<V>(s: State<V>, r: State<V>) {
    Rehashing(r) && Stage(s) && Stage(r) && |r.t0| == |s.t0| && |r.t1| == |s.t1| && Left(r) < Left(s)
  }

  lemma QuietGoesOn<V>(hash: Hash, s: State<V>)
    requires DictOps.Inv(hash, s) && Rehashing(s) && s.iterators == 0
    ensures var q := Quiet(hash, s);
            q.iterators == 0 && if Rehashing(q) then Further(s, q) else Over(s, q)
  {
    hide Placed, Bag, Unique, Power;
    QuietMoves(hash, s);
  }

  /** The expansion in an add touches no table that is being rehashed, and none that is in use. */
  lemma ExpandLeaves<V>(canResize: bool, s: State<V>)
    requires s.t0 != []
    ensures var r := ExpandIfNeeded(canResize, s);
            && r.t0 == s.t0 && r.iterators == s.iterators && (Rehashing(s) ==> r == s)
            && (Rehashing(r) && !Rehashing(s) ==> Used(r.t0) > 0)
  {
    hide Used, NextPower;
  }

  /** What follows the rehash step in an operation changes no length. */
  predicate SameLengths<V>(s: State<V>, r: State<V>) {
    |r.t0| == |s.t0| && |r.t1| == |s.t1| && r.rehashidx == s.rehashidx && r.iterators == s.iterators
  }

  lemma InsertLengths<V>(hash: Hash, s: State<V>, e: Entry<V>)
    requires s.t0 != [] && Stage(s)
    ensures SameLengths(s, Insert(hash, s, e))
  {
    hide IndexOf;
    IndexInRange(hash, e.key, if Rehashing(s) then |s.t1| else |s.t0|);
  }

  lemma RemoveLengths<V>(hash: Hash, s: State<V>, key: CStr)
    requires s.t0 != [] && Stage(s) && Remove(hash, s, key).Some?
    ensures SameLengths(s, Remove(hash, s, key).value)
  {
    hide IndexOf, SearchTable;
    IndexInRange(hash, key, |s.t0|);
    if Rehashing(s) { IndexInRange(hash, key, |s.t1|); }
  }

  /** A later state of the rehash that was under way in `s`. */
  ghost predicate Later<V>(s: State<V>, r: State<V>) {
    r.iterators == 0 && (Over(s, r) || Further(s, r))
  }

  lemma SameLater<V>(s: State<V>, q: State<V>, r: State<V>)
    requires Later(s, q) && SameLengths(q, r) && Stage(r)
    ensures Later(s, r)
  {
  }

  lemma PreparedLater<V>(hash: Hash, s: State<V>)
    requires DictOps.Inv(hash, s) && Rehashing(s) && s.iterators == 0 && Doubles(Quiet(hash, s))
    ensures var p := Prepared(hash, true, s); DictOps.Inv(hash, p) && p.t0 != [] && Later(s, p) && (Rehashing(p) && !Further(s, p) ==> Used(p.t0) > 0)
  {
    hide DictOps.Inv, Quiet, ExpandIfNeeded, Used, Doubles;
    StageOf(hash, s);
    QuietGoesOn(hash, s);
    QuietKeeps(hash, s);
    ExpandIfNeededKeeps(hash, true, Quiet(hash, s));
    StageOf(hash, Quiet(hash, s));
    ExpandLeaves(true, Quiet(hash, s));
  }

  /** A second rehash step in the same operation. */
  lemma AgainLater<V>(hash: Hash, s: State<V>, p: State<V>)
    requires DictOps.Inv(hash, p) && p.t0 != [] && Later(s, p) && (Rehashing(p) && !Further(s, p) ==> Used(p.t0) > 0)
    ensures Later(s, Quiet(hash, p)) && DictOps.Inv(hash, Quiet(hash, p))
  {
    hide Placed, Bag, Unique, Power, Used;
    QuietKeeps(hash, p);
    QuietMoves(hash, p);
    if Rehashing(p) && Further(s, p) {
      QuietGoesOn(hash, p);
    } else if Rehashing(p) {
      FirstFullInRange(p);
    }
  }

  /** Every operation takes the rehash further, until the second table takes over. */
  lemma OpGoesOn<V>(hash: Hash, h: Held<V>, op: Op<V>)
    requires DictOps.Inv(hash, h.s) && Rehashing(h.s) && h.s.iterators == 0 && Apply(hash, h, op).Some?
    ensures Later(h.s, Apply(hash, h, op).value.s)
  {
    hide DictOps.Inv, Quiet, ExpandIfNeeded, Used, Doubles, Insert, Remove, Search, Later;
    var s := h.s;
    StageOf(hash, s);
    ApplyInv(hash, h, op);
    StageOf(hash, Apply(hash, h, op).value.s);
    QuietGoesOn(hash, s);
    QuietKeeps(hash, s);
    QuietLater(hash, s);
    match op
    case Add(e, _) => {
      PreparedLater(hash, s);
      InsertAfter(hash, s, e);
    }
    case Replace(e, _) => {
      PreparedLater(hash, s);
      InsertAfter(hash, s, e);
      AgainLater(hash, s, Prepared(hash, true, s));
    }
    case Find(_) => {}
    case Delete(key) => {
      QuietHasTable(hash, s);
      StageOf(hash, Quiet(hash, s));
      if Remove(hash, Quiet(hash, s), key).Some? {
        RemoveLengths(hash, Quiet(hash, s), key);
        SameLater(s, Quiet(hash, s), Remove(hash, Quiet(hash, s), key).value);
      }
    }
  }

  lemma QuietLater<V>(hash: Hash, s: State<V>)
    requires DictOps.Inv(hash, s) && Rehashing(s) && s.iterators == 0
    ensures Stage(s) && Later(s, Quiet(hash, s))
  {
    hide Quiet;
    QuietGoesOn(hash, s);
  }

  lemma InsertAfter<V>(hash: Hash, s: State<V>, e: Entry<V>)
    requires DictOps.Inv(hash, s) && Rehashing(s) && s.iterators == 0 && Doubles(Quiet(hash, s))
    ensures var p := Prepared(hash, true, s);
            p.t0 != [] && Stage(p) && (Search(hash, p, e.key).None? ==> Later(s, Insert(hash, p, e)))
  {
    hide DictOps.Inv, Prepared, Used, Doubles, Insert, Search, Later;
    StageOf(hash, s);
    PreparedLater(hash, s);
    var p := Prepared(hash, true, s);
    StageOf(hash, p);
    if Search(hash, p, e.key).None? {
      SearchIs(hash, p, e.key);
      InsertKeeps(hash, p, e);
      StageOf(hash, Insert(hash, p, e));
      InsertLengths(hash, p, e);
      SameLater(s, p, Insert(hash, p, e));
    }
  }

  /** So a rehash is over at the latest after as many operations as the first table has buckets, and one: there is a
      moment at which the second table has taken over. */
  lemma {:induction false} RehashGetsDone<V>(hash: Hash, h: Held<V>, ops: seq<Op<V>>) returns (k: nat)
    requires DictOps.Inv(hash, h.s) && Rehashing(h.s) && h.s.iterators == 0 && RunFrom(hash, h, ops).Some? && |ops| >= |h.s.t0| + 1
    ensures k <= |ops| && RunFrom(hash, h, ops[..k]).Some? && Over(h.s, RunFrom(hash, h, ops[..k]).value.s)
  {
    hide Apply, Left;
    StageOf(hash, h.s);
    LeftBound(h.s);
    k := TakesOver(hash, h, ops, |ops|);
  }

  lemma LeftBound<V>(s: State<V>)
    requires Stage(s)
    ensures Left(s) <= |s.t0| + 1
  {
  }

  lemma {:induction false} RunsBefore<V>(hash: Hash, h: Held<V>, ops: seq<Op<V>>, k: nat)
    requires DictOps.Inv(hash, h.s) && RunFrom(hash, h, ops).Some? && k <= |ops|
    ensures RunFrom(hash, h, ops[..k]).Some?
    decreases |ops|
  {
    hide Apply, DictOps.Inv;
    if k == |ops| {
      assert ops[..k] == ops;
    } else {
      RunsBefore(hash, h, ops[..|ops| - 1], k);
      assert ops[..|ops| - 1][..k] == ops[..k];
    }
  }

  /** After `n` operations the second table has taken over at some moment, or `n` less is left. */
  lemma {:induction false} StillMoving<V>(hash: Hash, h: Held<V>, ops: seq<Op<V>>, n: nat) returns (k: nat)
    requires DictOps.Inv(hash, h.s) && Rehashing(h.s) && h.s.iterators == 0 && RunFrom(hash, h, ops).Some? && n <= |ops|
    ensures k <= n && RunFrom(hash, h, ops[..k]).Some?
    ensures var r := RunFrom(hash, h, ops[..k]).value.s;
            Over(h.s, r) || (k == n && r.iterators == 0 && Rehashing(r) && Stage(r) && Stage(h.s) && |r.t1| == |h.s.t1| && Left(r) + n <= Left(h.s))
    decreases n
  {
    hide Apply, DictOps.Inv, Left, Stage;
    if n == 0 {
      k := 0;
      assert ops[..0] == [];
      StageOf(hash, h.s);
    } else {
      k := StillMoving(hash, h, ops, n - 1);
      if !Over(h.s, RunFrom(hash, h, ops[..k]).value.s) {
        RunsBefore(hash, h, ops, n);
        assert ops[..n][..n - 1] == ops[..n - 1];
        OpGoesOn(hash, RunFrom(hash, h, ops[..n - 1]).value, ops[n - 1]);
        k := n;
      }
    }
  }

  lemma TakesOver<V>(hash: Hash, h: Held<V>, ops: seq<Op<V>>, n: nat) returns (k: nat)
    requires DictOps.Inv(hash, h.s) && Rehashing(h.s) && h.s.iterators == 0 && RunFrom(hash, h, ops).Some? && n <= |ops|
    requires Stage(h.s) && n >= Left(h.s)
    ensures k <= |ops| && RunFrom(hash, h, ops[..k]).Some? && Over(h.s, RunFrom(hash, h, ops[..k]).value.s)
  {
    hide Apply, DictOps.Inv;
    k := StillMoving(hash, h, ops, n);
  }
}
