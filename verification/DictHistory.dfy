/** Every history of a dictionary that may resize and has no safe iterator under way: its two tables are
    one finite map at every stage of every rehash, and never fuller than the load allows. */
module DictHistory {
  import opened CStrings
  import opened Columns
  import opened DictTables
  import opened DictOps
  import opened Dicts

  /** `dictCreate`. */
  function New<V>(): State<V> {
    State([], [], -1, 0)
  }

  /** Each new entry comes with the value it is made with. */
  datatype Op<V> = Add(e: Entry<V>, val: V) | Replace(e: Entry<V>, val: V) | Find(key: CStr) | Delete(key: CStr)

  /** The two tables, and the values of the entries. */
  datatype Held<V> = Held(s: State<V>, vals: map<Entry<V>, V>)

  /** `dictAdd`, `dictReplace`, `dictFind` and `dictGenericDelete` on the two tables; None when these are too
      long to double. */
  ghost function Apply<V>(hash: Hash, h: Held<V>, op: Op<V>): Option<Held<V>>
    requires Inv(hash, h.s)
  {
    var s := h.s;
    QuietKeeps(hash, s);
    var q := Quiet(hash, s);
    match op
    case Add(e, val) =>
      if !Doubles(q) then None
      else
        ExpandIfNeededKeeps(hash, true, q);
        var p := Prepared(hash, true, s);
        Some(if Search(hash, p, e.key).Some? then Held(p, h.vals) else Held(Insert(hash, p, e), h.vals[e := val]))
    case Replace(e, val) =>
      if !Doubles(q) then None
      else
        ExpandIfNeededKeeps(hash, true, q);
        var p := Prepared(hash, true, s);
        if Search(hash, p, e.key).None? then Some(Held(Insert(hash, p, e), h.vals[e := val]))
        else
          QuietHasTable(hash, p);
          QuietKeeps(hash, p);
          Some(match Search(hash, Quiet(hash, p), e.key)
               case None => Held(Quiet(hash, p), h.vals)
               case Some(f) => Held(Quiet(hash, p), h.vals[f := val]))
    case Find(_) =>
      Some(if s.t0 == [] then h else Held(q, h.vals))
    case Delete(key) =>
      if s.t0 == [] then Some(h)
      else
        QuietHasTable(hash, s);
        Some(match Remove(hash, q, key) case None => Held(q, h.vals) case Some(r) => Held(r, h.vals))
  }

  ghost function RunFrom<V>(hash: Hash, start: Held<V>, ops: seq<Op<V>>): (r: Option<Held<V>>)
    requires Inv(hash, start.s)
    ensures r.Some? ==> Inv(hash, r.value.s)
  {
    if ops == [] then Some(start)
    else
      match RunFrom(hash, start, ops[..|ops| - 1])
      case None => None
      case Some(h) =>
        var r := Apply(hash, h, ops[|ops| - 1]);
        if r.Some? then ApplyInv(hash, h, ops[|ops| - 1]); r else None
  }

  /** The operations on a new dictionary. */
  ghost function Run<V>(hash: Hash, ops: seq<Op<V>>): (r: Option<Held<V>>)
    ensures r.Some? ==> Inv(hash, r.value.s)
  {
    EmptyInv<V>(hash);
    RunFrom(hash, Held(New(), map[]), ops)
  }

  /** What an operation makes of a map: adding keeps the value that is there, replacing does not. */
  function After<V>(m: map<CStr, V>, op: Op<V>): map<CStr, V> {
    match op
    case Add(e, val) => if e.key in m then m else m[e.key := val]
    case Replace(e, val) => m[e.key := val]
    case Find(_) => m
    case Delete(key) => m - {key}
  }

  function Meaning<V>(ops: seq<Op<V>>): map<CStr, V> {
    if ops == [] then map[]
    else
      After(Meaning(ops[..|ops| - 1]), ops[|ops| - 1])
  }

  /** The entries `b` with their values are the map `m`. */
  ghost predicate Is<V>(b: multiset<Entry<V>>, vals: map<Entry<V>, V>, m: map<CStr, V>) {
    && (forall e :: e in b ==> e in vals && e.key in m && m[e.key] == vals[e])
    && (forall k :: k in m ==> exists e :: e in b && e.key == k)
  }

  lemma EmptyInv<V>(hash: Hash)
    ensures Inv(hash, New<V>()) && Load(New<V>()) && All(New<V>()) == multiset{}
  {
    BucketsEmpty<V>([]);
  }

  lemma ApplyInv<V>(hash: Hash, h: Held<V>, op: Op<V>)
    requires Inv(hash, h.s) && Apply(hash, h, op).Some?
    ensures Inv(hash, Apply(hash, h, op).value.s)
  {
    hide Inv, Quiet, Insert, Search, Remove, Doubles, ExpandIfNeeded;
    var s := h.s;
    StageOf(hash, s);
    QuietKeeps(hash, s);
    var q := Quiet(hash, s);
    match op
    case Add(e, _) => {
      ExpandIfNeededKeeps(hash, true, q);
      var p := Prepared(hash, true, s);
      StageOf(hash, p);
      SearchIs(hash, p, e.key);
      if Search(hash, p, e.key).None? { InsertKeeps(hash, p, e); }
    }
    case Replace(e, _) => {
      ExpandIfNeededKeeps(hash, true, q);
      var p := Prepared(hash, true, s);
      StageOf(hash, p);
      SearchIs(hash, p, e.key);
      if Search(hash, p, e.key).None? { InsertKeeps(hash, p, e); } else { QuietHasTable(hash, p); QuietKeeps(hash, p); }
    }
    case Find(_) => {}
    case Delete(key) => {
      if s.t0 != [] { QuietHasTable(hash, s); RemoveKeeps(hash, q, key); }
    }
  }

  /** Adding the entry `e` of a key that is not there, after the preparations. */
  lemma AddNew<V>(hash: Hash, s: State<V>, vals: map<Entry<V>, V>, e: Entry<V>, val: V, m: map<CStr, V>)
    requires Inv(hash, s) && Load(s) && s.iterators == 0 && Is(All(s), vals, m) && Doubles(Quiet(hash, s))
    ensures var p := Prepared(hash, true, s);
            && p.t0 != [] && Stage(p) && Inv(hash, p) && Load(p) && p.iterators == 0 && All(p) == All(s)
            && (Search(hash, p, e.key).Some? <==> e.key in m)
            && (e.key !in m ==> var r := Insert(hash, p, e);
                  Inv(hash, r) && Load(r) && r.iterators == 0 && Is(All(r), vals[e := val], m[e.key := val]))
  {
    hide Inv, Insert, Search, Doubles, ExpandIfNeeded, Load, Bag, RehashOnce;
    StageOf(hash, s);
    QuietKeeps(hash, s);
    var q := Quiet(hash, s);
    assert q.iterators == 0 by { QuietIterators(hash, s); }
    AddLoad(hash, s, e);
    ExpandIfNeededKeeps(hash, true, q);
    var p := Prepared(hash, true, s);
    assert p.iterators == 0 by { ExpandIterators(q); }
    StageOf(hash, p);
    SearchIs(hash, p, e.key);
    SearchMeans(All(p), vals, m, e.key, Search(hash, p, e.key));
    if e.key !in m {
      InsertKeeps(hash, p, e);
      InsertIterators(hash, p, e);
      IsMore(All(p), vals, m, e, val);
    }
  }

  lemma ApplyKeeps<V>(hash: Hash, h: Held<V>, op: Op<V>, m: map<CStr, V>)
    requires Inv(hash, h.s) && Load(h.s) && h.s.iterators == 0 && Is(All(h.s), h.vals, m) && Apply(hash, h, op).Some?
    ensures var h' := Apply(hash, h, op).value;
            Inv(hash, h'.s) && Load(h'.s) && h'.s.iterators == 0 && Is(All(h'.s), h'.vals, After(m, op))
  {
    hide Inv, Insert, Search, Remove, Doubles, ExpandIfNeeded, Load, Bag, RehashOnce, Is;
    var s := h.s;
    StageOf(hash, s);
    QuietKeeps(hash, s);
    QuietKeepsLoad(hash, s);
    QuietIterators(hash, s);
    match op
    case Add(e, val) => AddNew(hash, s, h.vals, e, val, m);
    case Replace(e, val) => {
      AddNew(hash, s, h.vals, e, val, m);
      if e.key in m { ReplaceKeeps(hash, Prepared(hash, true, s), h.vals, e.key, val, m); }
    }
    case Find(_) => {}
    case Delete(key) => DeleteKeeps(hash, s, h.vals, key, m);
  }

  /** `dictReplace` of a key that is there. */
  lemma ReplaceKeeps<V>(hash: Hash, p: State<V>, vals: map<Entry<V>, V>, key: CStr, val: V, m: map<CStr, V>)
    requires Inv(hash, p) && Load(p) && p.iterators == 0 && Is(All(p), vals, m) && key in m && p.t0 != [] && Stage(p)
    ensures var r := Quiet(hash, p);
            && r.t0 != [] && Stage(r) && Inv(hash, r) && Load(r) && r.iterators == 0 && Search(hash, r, key).Some?
            && Is(All(r), vals[Search(hash, r, key).value := val], m[key := val])
  {
    hide Inv, Search, Load, Bag, RehashOnce, Quiet;
    QuietKeeps(hash, p);
    QuietKeepsLoad(hash, p);
    QuietIterators(hash, p);
    QuietHasTable(hash, p);
    var r := Quiet(hash, p);
    StageOf(hash, r);
    SearchIs(hash, r, key);
    SearchMeans(All(r), vals, m, key, Search(hash, r, key));
    InvUnique(hash, r);
    IsSet(All(r), vals, m, Search(hash, r, key).value, val);
  }

  lemma DeleteKeeps<V>(hash: Hash, s: State<V>, vals: map<Entry<V>, V>, key: CStr, m: map<CStr, V>)
    requires Inv(hash, s) && Stage(s) && Load(s) && s.iterators == 0 && Is(All(s), vals, m)
    ensures s.t0 == [] ==> Is(All(s), vals, m - {key})
    ensures s.t0 != [] ==>
              var q := Quiet(hash, s);
              && q.t0 != [] && Stage(q)
              && var r := Remove(hash, q, key);
              var s' := if r.Some? then r.value else q;
              Inv(hash, s') && Load(s') && s'.iterators == 0 && Is(All(s'), vals, m - {key})
  {
    hide Inv, Search, Remove, Load, Bag, RehashOnce, Quiet, Is;
    if s.t0 == [] {
      NoEntriesYet(hash, s, vals, m);
      assert m - {key} == m;
    } else {
      QuietKeeps(hash, s);
      QuietKeepsLoad(hash, s);
      QuietIterators(hash, s);
      QuietHasTable(hash, s);
      var q := Quiet(hash, s);
      StageOf(hash, q);
      RemoveKeeps(hash, q, key);
      SearchIs(hash, q, key);
      SearchMeans(All(q), vals, m, key, Search(hash, q, key));
      if Remove(hash, q, key).Some? {
        RemoveLoad(hash, q, key);
        RemoveIterators(hash, q, key);
        InvUnique(hash, q);
        IsLess(All(q), All(Remove(hash, q, key).value), vals, m, Search(hash, q, key).value);
      } else {
        assert m - {key} == m;
      }
    }
  }

  lemma QuietIterators<V>(hash: Hash, s: State<V>)
    requires Stage(s)
    ensures Quiet(hash, s).iterators == s.iterators
  {
  }

  lemma ExpandIterators<V>(s: State<V>)
    ensures ExpandIfNeeded(true, s).iterators == s.iterators
  {
    hide NextPower, Used;
  }

  lemma InsertIterators<V>(hash: Hash, s: State<V>, e: Entry<V>)
    requires Stage(s) && s.t0 != []
    ensures Insert(hash, s, e).iterators == s.iterators
  {
  }

  lemma RemoveIterators<V>(hash: Hash, s: State<V>, key: CStr)
    requires Stage(s) && s.t0 != [] && Remove(hash, s, key).Some?
    ensures Remove(hash, s, key).value.iterators == s.iterators
  {
    hide SearchTable, Cut;
  }

  lemma InvUnique<V>(hash: Hash, s: State<V>)
    requires Inv(hash, s)
    ensures Unique(All(s))
  {
  }

  lemma NoEntriesYet<V>(hash: Hash, s: State<V>, vals: map<Entry<V>, V>, m: map<CStr, V>)
    requires Inv(hash, s) && s.t0 == [] && Is(All(s), vals, m)
    ensures m == map[]
  {
    BucketsEmpty<V>([]);
    assert All(s) == multiset{};
  }

  lemma IsMore<V>(b: multiset<Entry<V>>, vals: map<Entry<V>, V>, m: map<CStr, V>, e: Entry<V>, val: V)
    requires Is(b, vals, m) && forall f :: f in b ==> f.key != e.key
    ensures Is(b + multiset{e}, vals[e := val], m[e.key := val])
  {
    var b' := b + multiset{e};
    assert forall f :: f in b' <==> f in b || f == e;
    var m' := m[e.key := val];
    forall k | k in m' ensures exists f :: f in b' && f.key == k {
      if k == e.key { assert e in b'; } else {
        var f :| f in b && f.key == k;
        assert f in b';
      }
    }
  }

  lemma IsSet<V>(b: multiset<Entry<V>>, vals: map<Entry<V>, V>, m: map<CStr, V>, e: Entry<V>, val: V)
    requires Is(b, vals, m) && Unique(b) && e in b
    ensures Is(b, vals[e := val], m[e.key := val])
  {
    var m' := m[e.key := val];
    forall k | k in m' ensures exists f :: f in b && f.key == k {
      if k == e.key { assert e in b; }
    }
  }

  lemma IsLess<V>(b: multiset<Entry<V>>, a: multiset<Entry<V>>, vals: map<Entry<V>, V>, m: map<CStr, V>, e: Entry<V>)
    requires Is(b, vals, m) && Unique(b) && a + multiset{e} == b
    ensures Is(a, vals, m - {e.key})
  {
    assert b[e] == a[e] + 1;
    assert forall f :: f in a ==> f in b && b[f] >= a[f];
    assert forall f :: f in b && f != e ==> b[f] == a[f];
    forall k | k in m - {e.key} ensures exists f :: f in a && f.key == k {
      var f :| f in b && f.key == k;
      assert f in a;
    }
  }

  lemma SearchMeans<V>(b: multiset<Entry<V>>, vals: map<Entry<V>, V>, m: map<CStr, V>, key: CStr, r: Option<Entry<V>>)
    requires Is(b, vals, m)
    requires match r case Some(e) => e in b && e.key == key case None => forall e :: e in b ==> e.key != key
    ensures r.Some? <==> key in m
    ensures r.Some? ==> r.value in vals && vals[r.value] == m[key]
  {
  }

  lemma IsNothing<V>()
    ensures Is<V>(multiset{}, map[], map[])
  {
  }

  /** Whatever the operations, however far the rehash they find: the entries of the two tables, with their
      values, are the one map, each in its place and in one table only; a search finds what the map has; and
      the load is kept. */
  lemma {:induction false} EveryHistory<V>(hash: Hash, ops: seq<Op<V>>)
    requires Run(hash, ops).Some?
    ensures var h := Run(hash, ops).value;
            Inv(hash, h.s) && Load(h.s) && h.s.iterators == 0 && Is(All(h.s), h.vals, Meaning(ops))
    ensures var h := Run(hash, ops).value;
            forall key: CStr :: h.s.t0 != [] ==>
              && (Search(hash, h.s, key).Some? <==> key in Meaning(ops))
              && (key in Meaning(ops) ==> Search(hash, h.s, key).value in h.vals && h.vals[Search(hash, h.s, key).value] == Meaning(ops)[key])
  {
    hide Inv, Load, Is, Apply, Bag, Search;
    if ops == [] {
      EmptyInv<V>(hash);
      IsNothing<V>();
    } else {
      EveryHistory(hash, ops[..|ops| - 1]);
      ApplyKeeps(hash, Run(hash, ops[..|ops| - 1]).value, ops[|ops| - 1], Meaning(ops[..|ops| - 1]));
    }
    var h := Run(hash, ops).value;
    StageOf(hash, h.s);
    forall key: CStr | h.s.t0 != []
      ensures Search(hash, h.s, key).Some? <==> key in Meaning(ops)
      ensures key in Meaning(ops) ==> Search(hash, h.s, key).value in h.vals && h.vals[Search(hash, h.s, key).value] == Meaning(ops)[key]
    {
      SearchIs(hash, h.s, key);
      SearchMeans(All(h.s), h.vals, Meaning(ops), key, Search(hash, h.s, key));
    }
  }

  // ---- tables too long to double do not come up -------------------------------------------------------------------

  /** So few operations that no table gets too long to double. */
  const FEW: nat := 0x0800_0000_0000_0000

  /** After `n` operations. */
  ghost predicate Small<V>(s: State<V>, n: nat) {
    Used(s.t0) + Used(s.t1) <= n && |s.t0| <= 4 * n && |s.t1| <= 4 * n
  }

  lemma QuietSmall<V>(hash: Hash, s: State<V>, n: nat)
    requires Inv(hash, s) && Small(s, n)
    ensures Stage(s) && Small(Quiet(hash, s), n)
  {
    hide Used, Bag, TableOk, Unique, MoveChain;
    QuietKeeps(hash, s);
    SizeOfAll(s);
    SizeOfAll(Quiet(hash, s));
  }

  lemma SizeOfAll<V>(s: State<V>)
    ensures |All(s)| == Used(s.t0) + Used(s.t1)
  {
    hide Used, Bag;
    UsedIsBag(s.t0);
    UsedIsBag(s.t1);
  }

  lemma PreparedSmall<V>(hash: Hash, q: State<V>, n: nat)
    requires Inv(hash, q) && Small(q, n) && n + 1 < FEW
    ensures Doubles(q) && Small(ExpandIfNeeded(true, q), n + 1)
  {
    hide Used, Bag, TableOk, Unique, NextPowerFrom;
    if Wanted(true, q).Some? {
      var size := Wanted(true, q).value;
      NextPowerFromBelow(DICT_HT_INITIAL_SIZE, size);
      BucketsEmpty<V>(Buckets(NextPower(size)));
      assert size == 4 || (size == 2 * Used(q.t0) && Used(q.t0) > 0);
      assert NextPower(size) <= 4 * (n + 1);
      assert Small(ExpandIfNeeded(true, q), n + 1);
    }
  }

  lemma InsertSmall<V>(hash: Hash, p: State<V>, e: Entry<V>, n: nat)
    requires Inv(hash, p) && p.t0 != [] && Stage(p) && |p.t0| <= 4 * n && |p.t1| <= 4 * n && Used(p.t0) + Used(p.t1) < n
    requires Search(hash, p, e.key).None?
    ensures Small(Insert(hash, p, e), n)
  {
    hide Used, Bag, TableOk, Unique, Search;
    SearchIs(hash, p, e.key);
    InsertKeeps(hash, p, e);
    IndexInRange(hash, e.key, |if Rehashing(p) then p.t1 else p.t0|);
    SizeOfAll(p);
    var r := Insert(hash, p, e);
    SizeOfAll(r);
    assert |All(p) + multiset{e}| == |All(p)| + 1;
  }

  lemma RemoveSmall<V>(hash: Hash, q: State<V>, key: CStr, n: nat)
    requires Inv(hash, q) && q.t0 != [] && Stage(q) && Small(q, n) && Remove(hash, q, key).Some?
    ensures Small(Remove(hash, q, key).value, n)
  {
    hide Used, Bag, Placed, Unique, SearchTable, Cut;
    if SearchTable(hash, q.t0, key).Some? { CutIs(hash, q.t0, key); } else { CutIs(hash, q.t1, key); }
  }

  lemma ApplySmall<V>(hash: Hash, h: Held<V>, op: Op<V>, n: nat)
    requires Inv(hash, h.s) && Small(h.s, n) && n + 1 < FEW
    ensures Apply(hash, h, op).Some? && Small(Apply(hash, h, op).value.s, n + 1)
  {
    hide Inv, Quiet, Insert, Search, Remove, Doubles, ExpandIfNeeded;
    var s := h.s;
    QuietSmall(hash, s, n);
    QuietKeeps(hash, s);
    var q := Quiet(hash, s);
    match op
    case Find(_) => {}
    case Delete(key) => {
      if s.t0 != [] {
        QuietHasTable(hash, s);
        StageOf(hash, q);
        if Remove(hash, q, key).Some? { RemoveSmall(hash, q, key, n); }
      }
    }
    case Add(e, _) => AddSmall(hash, s, e, n);
    case Replace(e, _) => AddSmall(hash, s, e, n);
  }

  lemma AddSmall<V>(hash: Hash, s: State<V>, e: Entry<V>, n: nat)
    requires Inv(hash, s) && Small(s, n) && n + 1 < FEW
    ensures Stage(s) && Doubles(Quiet(hash, s))
    ensures var p := Prepared(hash, true, s);
            && p.t0 != [] && Stage(p) && Quiet(hash, p).t0 != []
            && Small(p, n + 1) && Small(Quiet(hash, p), n + 1) && (Search(hash, p, e.key).None? ==> Small(Insert(hash, p, e), n + 1))
  {
    hide Inv, Quiet, Insert, Search, Doubles, ExpandIfNeeded;
    QuietSmall(hash, s, n);
    QuietKeeps(hash, s);
    var q := Quiet(hash, s);
    PreparedSmall(hash, q, n);
    ExpandIfNeededKeeps(hash, true, q);
    var p := Prepared(hash, true, s);
    StageOf(hash, p);
    SizeOfAll(s);
    SizeOfAll(p);
    QuietHasTable(hash, p);
    QuietSmall(hash, p, n + 1);
    if Search(hash, p, e.key).None? {
      InsertSmall(hash, p, e, n + 1);
    }
  }

  /** Every history of fewer than 2^59 operations goes through: no table is ever too long to double. */
  lemma {:induction false} ShortHistoryRuns<V>(hash: Hash, ops: seq<Op<V>>)
    requires |ops| < FEW
    ensures Run(hash, ops).Some? && Small(Run(hash, ops).value.s, |ops|)
  {
    hide Inv, Apply, Small;
    if ops == [] {
      EmptySmall<V>();
    } else {
      ShortHistoryRuns(hash, ops[..|ops| - 1]);
      ApplySmall(hash, Run(hash, ops[..|ops| - 1]).value, ops[|ops| - 1], |ops| - 1);
    }
  }

  lemma EmptySmall<V>()
    ensures Small(New<V>(), 0)
  {
  }

  // ---- under a safe iterator ------------------------------------------------------------------------------------

  /** What of `s` is still there in `s'` is where it was; and nothing is new but `news`. */
  ghost predicate StaysPut<V>(s: State<V>, s': State<V>, news: set<Entry<V>>) {
    && (forall i, e :: 0 <= i < |s.t0| && e in s.t0[i] && e in All(s') ==> i < |s'.t0| && e in s'.t0[i])
    && (forall i, e :: 0 <= i < |s.t1| && e in s.t1[i] && e in All(s') ==> i < |s'.t1| && e in s'.t1[i])
    && (forall e :: e in All(s') ==> e in All(s) || e in news)
  }

  lemma StaysPutStep<V>(s: State<V>, s1: State<V>, s2: State<V>, news: set<Entry<V>>, more: set<Entry<V>>)
    requires StaysPut(s, s1, news) && StaysPut(s1, s2, more) && forall e :: e in All(s) ==> e !in more
    ensures StaysPut(s, s2, news + more)
  {
    hide Bag, All;
    forall i, e | 0 <= i < |s.t0| && e in s.t0[i] && e in All(s2) ensures i < |s2.t0| && e in s2.t0[i] {
      InAll(s, e, i);
    }
    forall i, e | 0 <= i < |s.t1| && e in s.t1[i] && e in All(s2) ensures i < |s2.t1| && e in s2.t1[i] {
      InAll(s, e, i);
    }
  }

  lemma InAll<V>(s: State<V>, e: Entry<V>, i: nat)
    ensures i < |s.t0| && e in s.t0[i] ==> e in All(s)
    ensures i < |s.t1| && e in s.t1[i] ==> e in All(s)
  {
    hide Bag;
    BagHas(s.t0, e);
    BagHas(s.t1, e);
  }

  lemma ExpandStays<V>(hash: Hash, s: State<V>)
    requires Inv(hash, s) && Doubles(s)
    ensures StaysPut(s, ExpandIfNeeded(true, s), {})
  {
    hide Bag, Used, NextPower, TableOk, Unique;
    ExpandIfNeededKeeps(hash, true, s);
  }

  lemma InsertStays<V>(hash: Hash, p: State<V>, e: Entry<V>)
    requires Inv(hash, p) && p.t0 != [] && Stage(p) && Search(hash, p, e.key).None?
    ensures StaysPut(p, Insert(hash, p, e), {e})
  {
    hide Bag, TableOk, Unique, Search;
    SearchIs(hash, p, e.key);
    InsertKeeps(hash, p, e);
    IndexInRange(hash, e.key, |if Rehashing(p) then p.t1 else p.t0|);
  }

  lemma CutStays<V>(hash: Hash, t: Table<V>, key: CStr, i: nat, e: Entry<V>)
    requires t != [] && SearchTable(hash, t, key).Some? && i < |t| && e in t[i] && e != SearchTable(hash, t, key).value
    ensures i < |Cut(hash, t, key)| && e in Cut(hash, t, key)[i]
  {
    IndexInRange(hash, key, |t|);
    var h := IndexOf(hash, key, |t|);
    if i == h {
      var c, j := t[h], Locate(t[h], key);
      var k :| 0 <= k < |c| && c[k] == e;
      assert k != j;
      assert (c[..j] + c[j + 1..])[if k < j then k else k - 1] == e;
    }
  }

  lemma RemoveStays<V>(hash: Hash, s: State<V>, key: CStr)
    requires Inv(hash, s) && s.t0 != [] && Stage(s) && Remove(hash, s, key).Some?
    ensures StaysPut(s, Remove(hash, s, key).value, {})
  {
    hide Bag, TableOk, Cut, SearchTable;
    RemoveKeeps(hash, s, key);
    var s' := Remove(hash, s, key).value;
    var gone := Search(hash, s, key).value;
    assert gone !in All(s') by {
      assert All(s)[gone] == All(s')[gone] + 1;
    }
    forall i, e | 0 <= i < |s.t0| && e in s.t0[i] && e in All(s') ensures i < |s'.t0| && e in s'.t0[i] {
      if SearchTable(hash, s.t0, key).Some? { CutStays(hash, s.t0, key, i, e); }
    }
    forall i, e | 0 <= i < |s.t1| && e in s.t1[i] && e in All(s') ensures i < |s'.t1| && e in s'.t1[i] {
      if SearchTable(hash, s.t0, key).None? { CutStays(hash, s.t1, key, i, e); }
    }
    forall e | e in All(s') ensures e in All(s) {
      assert All(s)[e] >= All(s')[e];
    }
  }

  /** The entries that an operation may bring. */
  function News<V>(op: Op<V>): set<Entry<V>> {
    match op
    case Add(e, _) => {e}
    case Replace(e, _) => {e}
    case _ => {}
  }

  /** Under a safe iterator no operation takes a rehash step. */
  lemma ApplyStays<V>(hash: Hash, h: Held<V>, op: Op<V>)
    requires Inv(hash, h.s) && h.s.iterators > 0 && Apply(hash, h, op).Some?
    ensures Apply(hash, h, op).value.s.iterators == h.s.iterators && StaysPut(h.s, Apply(hash, h, op).value.s, News(op))
  {
    hide Inv, Insert, Search, Remove, Doubles, ExpandIfNeeded, All, RehashOnce;
    var s := h.s;
    StageOf(hash, s);
    match op
    case Add(e, _) => AddStays(hash, s, e);
    case Replace(e, _) => AddStays(hash, s, e);
    case Find(_) => {}
    case Delete(key) => {
      if s.t0 != [] && Remove(hash, s, key).Some? {
        RemoveIterators(hash, s, key);
        RemoveStays(hash, s, key);
      }
    }
  }

  lemma AddStays<V>(hash: Hash, s: State<V>, e: Entry<V>)
    requires Inv(hash, s) && Stage(s) && s.iterators > 0 && Doubles(s)
    ensures var p := ExpandIfNeeded(true, s);
            && p.t0 != [] && Stage(p) && p.iterators == s.iterators && Quiet(hash, p) == p && StaysPut(s, p, {e})
            && (Search(hash, p, e.key).None? ==> Insert(hash, p, e).iterators == s.iterators && StaysPut(s, Insert(hash, p, e), {e}))
  {
    hide Inv, Insert, Search, Doubles, ExpandIfNeeded, All;
    ExpandIfNeededKeeps(hash, true, s);
    ExpandIterators(s);
    ExpandStays(hash, s);
    var p := ExpandIfNeeded(true, s);
    StageOf(hash, p);
    if Search(hash, p, e.key).None? {
      InsertIterators(hash, p, e);
      InsertStays(hash, p, e);
      SearchIs(hash, p, e.key);
      StaysPutStep(s, p, Insert(hash, p, e), {}, {e});
      assert {} + {e} == {e};
    }
  }

  ghost function AllNews<V>(ops: seq<Op<V>>): set<Entry<V>> {
    if ops == [] then {} else AllNews(ops[..|ops| - 1]) + News(ops[|ops| - 1])
  }

  /** While a safe iterator is under way, no number of operations moves an entry: what was there and still is
      is in its table and its bucket. */
  lemma {:induction false} NothingMoves<V>(hash: Hash, start: Held<V>, ops: seq<Op<V>>)
    requires Inv(hash, start.s) && start.s.iterators > 0 && RunFrom(hash, start, ops).Some?
    requires forall e :: e in All(start.s) ==> e !in AllNews(ops)
    ensures var h := RunFrom(hash, start, ops).value;
            h.s.iterators == start.s.iterators && StaysPut(start.s, h.s, AllNews(ops))
  {
    hide Inv, Apply, StaysPut, All, News;
    if ops == [] {
      StaysItself(start.s);
    } else {
      var init, op := ops[..|ops| - 1], ops[|ops| - 1];
      NothingMoves(hash, start, init);
      var h := RunFrom(hash, start, init).value;
      ApplyStays(hash, h, op);
      StaysPutStep(start.s, h.s, Apply(hash, h, op).value.s, AllNews(init), News(op));
    }
  }

  lemma StaysItself<V>(s: State<V>)
    ensures StaysPut(s, s, {})
  {
  }
}
