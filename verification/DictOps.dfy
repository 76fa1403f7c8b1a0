/** The operations of utils/dict.c on the two tables: every one keeps the invariant, whatever the stage of
    the rehash, and all together implement one finite map. */
module DictOps {
  import opened CStrings
  import opened Columns
  import opened DictTables

  /** The tables, the next bucket of the first to move (or -1), and the number of safe iterators under way. */
  datatype State<V> = State(t0: Table<V>, t1: Table<V>, rehashidx: int, iterators: nat)

  predicate Rehashing<V>(s: State<V>) {
    s.rehashidx != -1
  }

  ghost function All<V>(s: State<V>): multiset<Entry<V>> {
    Bag(s.t0) + Bag(s.t1)
  }

  /** Every entry is in the bucket of its masked hash. */
  ghost predicate Placed<V>(hash: Hash, t: Table<V>) {
    forall i, e :: 0 <= i < |t| && e in t[i] ==> IndexOf(hash, e.key, |t|) == i
  }

  ghost predicate TableOk<V>(hash: Hash, t: Table<V>) {
    t == [] || (Power(|t|) && Placed(hash, t))
  }

  ghost predicate Unique<V>(b: multiset<Entry<V>>) {
    (forall e :: e in b ==> b[e] == 1) && (forall e, f :: e in b && f in b && e.key == f.key ==> e == f)
  }

  ghost predicate Stage<V>(s: State<V>) {
    if s.rehashidx == -1 then s.t1 == []
    else s.t0 != [] && s.t1 != [] && 0 <= s.rehashidx <= |s.t0| && forall i :: 0 <= i < s.rehashidx ==> s.t0[i] == []
  }

  ghost predicate Inv<V>(hash: Hash, s: State<V>) {
    TableOk(hash, s.t0) && TableOk(hash, s.t1) && Stage(s) && Unique(All(s))
  }

  // ---- the rehash ---------------------------------------------------------------------------------------

  /** The first bucket from `i` on that is not empty. */
  function FirstFull<V>(t: Table<V>, i: nat): (j: nat)
    requires i <= |t|
    ensures i <= j <= |t| && (forall k :: i <= k < j ==> t[k] == []) && (j < |t| ==> t[j] != [])
    decreases |t| - i
  {
    if i == |t| || t[i] != [] then i else FirstFull(t, i + 1)
  }

  /** The inner loop of `dictRehash`: the entries of a chain go to the heads of their new buckets. */
  ghost function MoveChain<V>(hash: Hash, c: Chain<V>, t: Table<V>): (r: Table<V>)
    requires t != []
    ensures |r| == |t|
    decreases c
  {
    if c == [] then t
    else
      IndexInRange(hash, c[0].key, |t|);
      var h := IndexOf(hash, c[0].key, |t|);
      MoveChain(hash, c[1..], t[h := [c[0]] + t[h]])
  }

  /** One step of `dictRehash`: the first table is given up when it is empty; otherwise its first bucket
      that is not moves. */
  ghost function RehashOnce<V>(hash: Hash, s: State<V>): State<V>
    requires Stage(s) && Rehashing(s)
  {
    if Used(s.t0) == 0 then State(s.t1, [], -1, s.iterators)
    else
      var j := FirstFull(s.t0, s.rehashidx);
      if j == |s.t0| then s
      else State(s.t0[j := []], MoveChain(hash, s.t0[j], s.t1), j + 1, s.iterators)
  }

  /** The loop that skips empty buckets stops inside the table. */
  lemma FirstFullInRange<V>(s: State<V>)
    requires Stage(s) && Rehashing(s) && Used(s.t0) > 0
    ensures FirstFull(s.t0, s.rehashidx) < |s.t0|
  {
    UsedIsBag(s.t0);
  }

  lemma PlacedUpdate<V>(hash: Hash, t: Table<V>, e: Entry<V>)
    requires t != [] && Placed(hash, t)
    ensures var h := IndexOf(hash, e.key, |t|); h < |t| && Placed(hash, t[h := [e] + t[h]])
  {
    IndexInRange(hash, e.key, |t|);
  }

  lemma {:induction false} MoveChainKeeps<V>(hash: Hash, c: Chain<V>, t: Table<V>)
    requires t != [] && Placed(hash, t)
    ensures Placed(hash, MoveChain(hash, c, t))
    ensures Bag(MoveChain(hash, c, t)) == Bag(t) + multiset(c) && Used(MoveChain(hash, c, t)) == Used(t) + |c|
    decreases c
  {
    hide Placed, IndexOf, Bag, Used;
    if c != [] {
      var h := IndexOf(hash, c[0].key, |t|);
      PlacedUpdate(hash, t, c[0]);
      Push(t, h, c[0]);
      MoveChainKeeps(hash, c[1..], t[h := [c[0]] + t[h]]);
      assert c == [c[0]] + c[1..];
      assert multiset(c) == multiset{c[0]} + multiset(c[1..]);
    }
  }

  lemma PlacedClear<V>(hash: Hash, t: Table<V>, j: nat)
    requires j < |t| && TableOk(hash, t)
    ensures TableOk(hash, t[j := []])
  {
    hide IndexOf, Power;
  }

  /** A rehash step moves entries and loses none. */
  lemma RehashKeeps<V>(hash: Hash, s: State<V>)
    requires Inv(hash, s) && Rehashing(s)
    ensures Inv(hash, RehashOnce(hash, s)) && All(RehashOnce(hash, s)) == All(s)
  {
    hide Placed, Power, Bag, Used, Unique;
    if Used(s.t0) == 0 {
      UsedIsBag(s.t0);
      BucketsEmpty(s.t0);
      BucketsEmpty<V>([]);
      assert All(RehashOnce(hash, s)) == All(s);
    } else {
      FirstFullInRange(s);
      var j := FirstFull(s.t0, s.rehashidx);
      BagUpdate(s.t0, j, []);
      PlacedClear(hash, s.t0, j);
      MoveChainKeeps(hash, s.t0[j], s.t1);
      var t0, t1 := Bag(s.t0[j := []]), Bag(s.t1);
      assert t0 + (t1 + multiset(s.t0[j])) == (t0 + multiset(s.t0[j])) + t1;
      assert t0 + multiset(s.t0[j]) == Bag(s.t0);
      assert All(RehashOnce(hash, s)) == All(s);
    }
  }

  /** So much is left of a rehash: every step of it makes it less. */
  ghost function Left<V>(s: State<V>): nat
    requires Stage(s)
  {
    if Rehashing(s) then |s.t0| - s.rehashidx + 1 else 0
  }

  lemma RehashProgress<V>(hash: Hash, s: State<V>)
    requires Stage(s) && Rehashing(s)
    ensures Stage(RehashOnce(hash, s)) && Left(RehashOnce(hash, s)) < Left(s)
  {
    if Used(s.t0) > 0 { FirstFullInRange(s); }
  }

  /** `dictRehash(d, n)`. */
  ghost function Rehash<V>(hash: Hash, s: State<V>, n: nat): State<V>
    requires Stage(s)
    decreases n
  {
    if n == 0 || !Rehashing(s) then s
    else
      RehashProgress(hash, s);
      Rehash(hash, RehashOnce(hash, s), n - 1)
  }

  /** A rehash is complete after at most as many steps as the first table has buckets, and one. */
  lemma {:induction false} RehashCompletes<V>(hash: Hash, s: State<V>, n: nat)
    requires Inv(hash, s) && n >= Left(s)
    ensures !Rehashing(Rehash(hash, s, n)) && Inv(hash, Rehash(hash, s, n)) && All(Rehash(hash, s, n)) == All(s)
    ensures Left(s) <= |s.t0| + 1
    decreases n
  {
    hide TableOk, Unique;
    if Rehashing(s) {
      RehashProgress(hash, s);
      RehashKeeps(hash, s);
      RehashCompletes(hash, RehashOnce(hash, s), n - 1);
    }
  }

  /** `_dictRehashStep`, where an operation may take one: not under a safe iterator. */
  ghost function Quiet<V>(hash: Hash, s: State<V>): State<V>
    requires Stage(s)
  {
    if Rehashing(s) && s.iterators == 0 then RehashOnce(hash, s) else s
  }

  /** An operation that finds a rehash under way and no safe iterator takes it further. */
  lemma QuietMoves<V>(hash: Hash, s: State<V>)
    requires Stage(s)
    ensures if Rehashing(s) && s.iterators == 0 then Stage(Quiet(hash, s)) && Left(Quiet(hash, s)) < Left(s) else Quiet(hash, s) == s
  {
    if Rehashing(s) { RehashProgress(hash, s); }
  }

  lemma QuietKeeps<V>(hash: Hash, s: State<V>)
    requires Inv(hash, s)
    ensures Inv(hash, Quiet(hash, s)) && All(Quiet(hash, s)) == All(s)
  {
    hide Inv;
    if Rehashing(s) && s.iterators == 0 { RehashKeeps(hash, s); }
  }

  // ---- expanding ------------------------------------------------------------------------------------------

  /** `dictExpand`; None is DICT_ERR. */
  function Expand<V>(s: State<V>, size: nat): Option<State<V>> {
    if Rehashing(s) || Used(s.t0) > size then None
    else if s.t0 == [] then Some(State(Buckets(NextPower(size)), s.t1, s.rehashidx, s.iterators))
    else Some(State(s.t0, Buckets(NextPower(size)), 0, s.iterators))
  }

  /** The size that `_dictExpandIfNeeded` asks for, if any. */
  function Wanted<V>(canResize: bool, s: State<V>): Option<nat> {
    var used, size := Used(s.t0), |s.t0|;
    if Rehashing(s) then None
    else if size == 0 then Some(DICT_HT_INITIAL_SIZE)
    else if used >= size && (canResize || used / size > FORCE_RESIZE_RATIO) then Some((if size > used then size else used) * 2)
    else None
  }

  function ExpandIfNeeded<V>(canResize: bool, s: State<V>): State<V> {
    match Wanted(canResize, s)
    case None => s
    case Some(size) => (match Expand(s, size) case None => s case Some(s') => s')
  }

  /** An expansion asked for by `_dictExpandIfNeeded` is never refused. */
  lemma WantedIsGranted<V>(canResize: bool, s: State<V>)
    ensures Wanted(canResize, s).Some? ==> Expand(s, Wanted(canResize, s).value).Some?
  {
    if s.t0 == [] { BucketsEmpty(s.t0); }
  }

  lemma ExpandKeeps<V>(hash: Hash, s: State<V>, size: nat)
    requires Inv(hash, s) && Expand(s, size).Some? && size < LONG_MAX
    ensures Inv(hash, Expand(s, size).value) && All(Expand(s, size).value) == All(s)
  {
    hide IndexOf, Power;
    NextPowerIs(size);
    BucketsEmpty<V>(Buckets(NextPower(size)));
  }

  /** The tables are not too long for their sizes to double. */
  predicate Doubles<V>(s: State<V>) {
    2 * Used(s.t0) < LONG_MAX && 2 * |s.t0| < LONG_MAX
  }

  lemma ExpandIfNeededKeeps<V>(hash: Hash, canResize: bool, s: State<V>)
    requires Inv(hash, s) && Doubles(s)
    ensures Inv(hash, ExpandIfNeeded(canResize, s)) && All(ExpandIfNeeded(canResize, s)) == All(s)
    ensures ExpandIfNeeded(canResize, s).t0 != []
  {
    hide Inv;
    WantedIsGranted(canResize, s);
    if Wanted(canResize, s).Some? {
      ExpandKeeps(hash, s, Wanted(canResize, s).value);
      NextPowerIs(Wanted(canResize, s).value);
    } else {
      StageOf(hash, s);
    }
  }

  /** The tables are expanded when the first is empty, or when it is full, has no rehash under way, and resizing is
      allowed or it is six times full: then a second, empty one of the least power of two that holds twice its
      entries is there to rehash to, and the first is as it was. */
  lemma ExpandsWhenFull<V>(hash: Hash, canResize: bool, s: State<V>)
    requires Inv(hash, s) && Doubles(s)
    ensures ExpandIfNeeded(canResize, s) != s <==>
            s.t0 == [] || (!Rehashing(s) && Used(s.t0) >= |s.t0| && (canResize || Used(s.t0) >= 6 * |s.t0|))
    ensures s.t0 == [] ==> var r := ExpandIfNeeded(canResize, s); |r.t0| == 4 && Bag(r.t0) == multiset{} && r.(t0 := s.t0) == s
    ensures s.t0 != [] && ExpandIfNeeded(canResize, s) != s ==>
              var r := ExpandIfNeeded(canResize, s);
              && r.t0 == s.t0 && r.iterators == s.iterators && r.rehashidx == 0 && Bag(r.t1) == multiset{}
              && Power(|r.t1|) && 2 * Used(s.t0) <= |r.t1| && (|r.t1| < 4 * Used(s.t0) || |r.t1| == 4)
  {
    assert NextPower(DICT_HT_INITIAL_SIZE) == 4;
    hide Bag, Used, TableOk, Unique, NextPower, Power;
    WantedIsGranted(canResize, s);
    if s.t0 == [] { BucketsEmpty(s.t0); }
    if Wanted(canResize, s).Some? {
      var size := Wanted(canResize, s).value;
      NextPowerIs(size);
      BucketsEmpty<V>(Buckets(NextPower(size)));
    }
    if s.t0 != [] {
      OverRatio(Used(s.t0), |s.t0|);
    }
  }

  lemma OverRatio(used: nat, size: nat)
    requires size > 0
    ensures used / size > FORCE_RESIZE_RATIO <==> used >= 6 * size
  {
    assert used == size * (used / size) + used % size;
    if used / size > FORCE_RESIZE_RATIO {
      assert size * (used / size) >= size * 6;
    } else {
      assert size * (used / size) <= size * 5;
    }
  }

  lemma StageOf<V>(hash: Hash, s: State<V>)
    requires Inv(hash, s)
    ensures Stage(s)
  {
  }

  // ---- searching ------------------------------------------------------------------------------------------

  /** Where the first entry with `key` is in a chain, or its length. */
  function Locate<V>(c: Chain<V>, key: CStr): (j: nat)
    ensures j <= |c| && (j < |c| ==> c[j].key == key) && forall k :: 0 <= k < j ==> c[k].key != key
  {
    if c == [] then 0
    else if c[0].key == key then 0
    else
      var j := Locate(c[1..], key);
      assert forall k :: 0 < k < j + 1 ==> c[k] == c[1..][k - 1];
      1 + j
  }

  function SearchTable<V>(hash: Hash, t: Table<V>, key: CStr): Option<Entry<V>>
    requires t != []
  {
    IndexInRange(hash, key, |t|);
    var c := t[IndexOf(hash, key, |t|)];
    var j := Locate(c, key);
    if j < |c| then Some(c[j]) else None
  }

  /** The loop over the tables in `dictFind` and `_dictKeyIndex`. */
  function Search<V>(hash: Hash, s: State<V>, key: CStr): Option<Entry<V>>
    requires s.t0 != [] && Stage(s)
  {
    var r := SearchTable(hash, s.t0, key);
    if r.Some? || !Rehashing(s) then r else SearchTable(hash, s.t1, key)
  }

  lemma SearchTableIs<V>(hash: Hash, t: Table<V>, key: CStr)
    requires t != [] && Placed(hash, t)
    ensures match SearchTable(hash, t, key)
            case Some(e) => e in Bag(t) && e.key == key
            case None => forall e :: e in Bag(t) ==> e.key != key
  {
    hide IndexOf, Bag;
    IndexInRange(hash, key, |t|);
    var h := IndexOf(hash, key, |t|);
    var j := Locate(t[h], key);
    if j < |t[h]| {
      BagHas(t, t[h][j]);
    } else {
      forall e | e in Bag(t) ensures e.key != key {
        BagHas(t, e);
      }
    }
  }

  /** A search finds the entry of a key whichever table it is in, and finds none exactly when there is none. */
  lemma SearchIs<V>(hash: Hash, s: State<V>, key: CStr)
    requires Inv(hash, s) && s.t0 != []
    ensures match Search(hash, s, key)
            case Some(e) => e in All(s) && e.key == key
            case None => forall e :: e in All(s) ==> e.key != key
  {
    hide Bag, Unique, SearchTable;
    SearchTableIs(hash, s.t0, key);
    if Rehashing(s) { SearchTableIs(hash, s.t1, key); } else { BucketsEmpty(s.t1); }
  }

  // ---- adding and removing ----------------------------------------------------------------------------------

  /** What `dictAdd` does before it looks for the key's bucket. */
  ghost function Prepared<V>(hash: Hash, canResize: bool, s: State<V>): State<V>
    requires Stage(s)
  {
    ExpandIfNeeded(canResize, Quiet(hash, s))
  }

  /** A new entry goes to the head of its bucket, in the second table during a rehash. */
  ghost function Insert<V>(hash: Hash, s: State<V>, e: Entry<V>): State<V>
    requires s.t0 != [] && Stage(s)
  {
    if Rehashing(s) then
      IndexInRange(hash, e.key, |s.t1|);
      var h := IndexOf(hash, e.key, |s.t1|);
      s.(t1 := s.t1[h := [e] + s.t1[h]])
    else
      IndexInRange(hash, e.key, |s.t0|);
      var h := IndexOf(hash, e.key, |s.t0|);
      s.(t0 := s.t0[h := [e] + s.t0[h]])
  }

  lemma UniqueMore<V>(b: multiset<Entry<V>>, e: Entry<V>)
    requires Unique(b) && forall f :: f in b ==> f.key != e.key
    ensures Unique(b + multiset{e})
  {
  }

  lemma InsertKeeps<V>(hash: Hash, s: State<V>, e: Entry<V>)
    requires Inv(hash, s) && s.t0 != [] && forall f :: f in All(s) ==> f.key != e.key
    ensures Inv(hash, Insert(hash, s, e)) && All(Insert(hash, s, e)) == All(s) + multiset{e}
  {
    hide Bag, IndexOf, Power, Placed, Unique;
    UniqueMore(All(s), e);
    if Rehashing(s) {
      PlacedUpdate(hash, s.t1, e);
      Push(s.t1, IndexOf(hash, e.key, |s.t1|), e);
    } else {
      PlacedUpdate(hash, s.t0, e);
      Push(s.t0, IndexOf(hash, e.key, |s.t0|), e);
      assert Bag(s.t0) + multiset{e} + Bag(s.t1) == Bag(s.t0) + Bag(s.t1) + multiset{e};
    }
    assert All(Insert(hash, s, e)) == All(s) + multiset{e};
  }

  /** A table without the entry of `key`. */
  ghost function Cut<V>(hash: Hash, t: Table<V>, key: CStr): Table<V>
    requires t != [] && SearchTable(hash, t, key).Some?
  {
    IndexInRange(hash, key, |t|);
    var h := IndexOf(hash, key, |t|);
    var j := Locate(t[h], key);
    t[h := t[h][..j] + t[h][j + 1..]]
  }

  /** `dictGenericDelete` after its rehash step; None is DICT_ERR. */
  ghost function Remove<V>(hash: Hash, s: State<V>, key: CStr): Option<State<V>>
    requires s.t0 != [] && Stage(s)
  {
    if SearchTable(hash, s.t0, key).Some? then Some(s.(t0 := Cut(hash, s.t0, key)))
    else if Rehashing(s) && SearchTable(hash, s.t1, key).Some? then Some(s.(t1 := Cut(hash, s.t1, key)))
    else None
  }

  lemma CutIs<V>(hash: Hash, t: Table<V>, key: CStr)
    requires t != [] && TableOk(hash, t) && SearchTable(hash, t, key).Some?
    ensures TableOk(hash, Cut(hash, t, key)) && |Cut(hash, t, key)| == |t|
    ensures Bag(Cut(hash, t, key)) + multiset{SearchTable(hash, t, key).value} == Bag(t)
    ensures Used(Cut(hash, t, key)) + 1 == Used(t) && Full(Cut(hash, t, key)) <= Full(t)
    ensures forall i :: 0 <= i < |t| && t[i] == [] ==> Cut(hash, t, key)[i] == []
  {
    hide Bag, IndexOf, Power, Used, Full, Placed;
    IndexInRange(hash, key, |t|);
    var h := IndexOf(hash, key, |t|);
    CutBag(t, h, Locate(t[h], key));
    CutPlaced(hash, t, h, Locate(t[h], key));
  }

  lemma CutBag<V>(t: Table<V>, h: nat, j: nat)
    requires h < |t| && j < |t[h]|
    ensures var r := t[h := t[h][..j] + t[h][j + 1..]];
            Bag(r) + multiset{t[h][j]} == Bag(t) && Used(r) + 1 == Used(t) && Full(r) <= Full(t)
  {
    hide Bag, Used, Full;
    var c := t[h];
    var c' := c[..j] + c[j + 1..];
    BagUpdate(t, h, c');
    assert c == c[..j] + ([c[j]] + c[j + 1..]);
    assert multiset(c) == multiset(c') + multiset{c[j]};
    Cancel(Bag(t[h := c']) + multiset{c[j]}, Bag(t), multiset(c'));
  }

  lemma CutPlaced<V>(hash: Hash, t: Table<V>, h: nat, j: nat)
    requires h < |t| && j < |t[h]| && Placed(hash, t)
    ensures Placed(hash, t[h := t[h][..j] + t[h][j + 1..]])
  {
    hide IndexOf;
    assert forall i, e :: 0 <= i < |t| && e in t[h := t[h][..j] + t[h][j + 1..]][i] ==> e in t[i];
  }

  lemma UniqueLess<V>(b: multiset<Entry<V>>, a: multiset<Entry<V>>, e: Entry<V>)
    requires Unique(b) && a + multiset{e} == b
    ensures Unique(a)
  {
    assert forall f :: f in a ==> f in b && b[f] >= a[f];
  }

  /** Removing takes out exactly the entry of the key, if there is one. */
  lemma RemoveKeeps<V>(hash: Hash, s: State<V>, key: CStr)
    requires Inv(hash, s) && s.t0 != []
    ensures Remove(hash, s, key).Some? <==> Search(hash, s, key).Some?
    ensures Remove(hash, s, key).Some? ==>
              Inv(hash, Remove(hash, s, key).value) && All(Remove(hash, s, key).value) + multiset{Search(hash, s, key).value} == All(s)
  {
    hide Bag, IndexOf, TableOk, Unique, SearchTable, Cut;
    if SearchTable(hash, s.t0, key).Some? {
      CutIs(hash, s.t0, key);
      var e, a := SearchTable(hash, s.t0, key).value, Bag(Cut(hash, s.t0, key));
      assert a + Bag(s.t1) + multiset{e} == (a + multiset{e}) + Bag(s.t1);
      UniqueLess(All(s), a + Bag(s.t1), e);
    } else if Rehashing(s) && SearchTable(hash, s.t1, key).Some? {
      CutIs(hash, s.t1, key);
      var e, a := SearchTable(hash, s.t1, key).value, Bag(Cut(hash, s.t1, key));
      assert Bag(s.t0) + a + multiset{e} == Bag(s.t0) + (a + multiset{e});
      UniqueLess(All(s), Bag(s.t0) + a, e);
    }
  }

  // ---- how full the tables get ---------------------------------------------------------------------------------

  /** During a rehash the entries and the buckets still to move do not outgrow the new table; otherwise the
      entries do not outgrow the table: by one at most. */
  ghost predicate Load<V>(s: State<V>) {
    if Rehashing(s) then Used(s.t0) + Used(s.t1) + Full(s.t0) <= |s.t1| + 1 else Used(s.t0) <= |s.t0| + 1
  }

  lemma RehashLoad<V>(hash: Hash, s: State<V>)
    requires Inv(hash, s) && Load(s) && Rehashing(s)
    ensures Load(RehashOnce(hash, s))
    ensures var r := RehashOnce(hash, s); Rehashing(r) ==> Used(r.t0) + Used(r.t1) + Full(r.t0) <= |r.t1|
  {
    hide Used, Full, Bag, Placed, Unique;
    UsedIsBag(s.t0);
    if Used(s.t0) > 0 {
      FirstFullInRange(s);
      var j := FirstFull(s.t0, s.rehashidx);
      BagUpdate(s.t0, j, []);
      MoveChainKeeps(hash, s.t0[j], s.t1);
    }
  }

  /** With resizing enabled and no safe iterator, adding keeps the load. */
  lemma AddLoad<V>(hash: Hash, s: State<V>, e: Entry<V>)
    requires Inv(hash, s) && Load(s) && s.iterators == 0 && Doubles(Quiet(hash, s))
    ensures var p := Prepared(hash, true, s); p.t0 != [] && Stage(p) && Load(p) && Load(Insert(hash, p, e))
  {
    hide Used, Full, Bag, Placed, Unique, RehashOnce, NextPower;
    var q := Quiet(hash, s);
    QuietKeeps(hash, s);
    if Rehashing(s) { RehashLoad(hash, s); }
    ExpandIfNeededKeeps(hash, true, q);
    PreparedLoad(hash, q);
    InsertLoad(hash, Prepared(hash, true, s), e);
  }

  /** After its rehash step and its expansion, an add has room for one more. */
  ghost predicate Room<V>(s: State<V>) {
    if Rehashing(s) then Used(s.t0) + Used(s.t1) + Full(s.t0) <= |s.t1| else Used(s.t0) <= |s.t0|
  }

  lemma PreparedLoad<V>(hash: Hash, q: State<V>)
    requires Inv(hash, q) && Load(q) && (Rehashing(q) ==> Room(q)) && Doubles(q)
    ensures Room(ExpandIfNeeded(true, q))
  {
    hide Used, Full, Bag, Placed, Unique, NextPower;
    WantedIsGranted(true, q);
    UsedIsBag(q.t0);
    if Wanted(true, q).Some? {
      NextPowerIs(Wanted(true, q).value);
      BucketsEmpty<V>(Buckets(NextPower(Wanted(true, q).value)));
    }
  }

  lemma InsertLoad<V>(hash: Hash, p: State<V>, e: Entry<V>)
    requires Inv(hash, p) && p.t0 != [] && Room(p)
    ensures Load(p) && Load(Insert(hash, p, e))
  {
    hide Used, Full, Bag, Placed, Unique, IndexOf;
    var t := if Rehashing(p) then p.t1 else p.t0;
    IndexInRange(hash, e.key, |t|);
    Push(t, IndexOf(hash, e.key, |t|), e);
  }

  /** Finding and removing keep it, too. */
  lemma RemoveLoad<V>(hash: Hash, s: State<V>, key: CStr)
    requires Inv(hash, s) && Load(s) && s.t0 != [] && Remove(hash, s, key).Some?
    ensures Load(Remove(hash, s, key).value)
  {
    hide Used, Full, Bag, Placed, Unique, Cut, SearchTable;
    if SearchTable(hash, s.t0, key).Some? {
      CutIs(hash, s.t0, key);
    } else {
      CutIs(hash, s.t1, key);
    }
  }

  // ---- where an entry can be ----------------------------------------------------------------------------------

  lemma Twice<V>(c: Chain<V>, j: nat, k: nat)
    requires j < k < |c| && c[j] == c[k]
    ensures multiset(c)[c[j]] >= 2
  {
    assert c == c[..k] + c[k..];
    assert c[..k][j] == c[j] && c[k..][0] == c[k];
    var e := c[j];
    assert e in multiset(c[..k]) && e in multiset(c[k..]);
    assert multiset(c) == multiset(c[..k]) + multiset(c[k..]);
    assert multiset(c)[e] == multiset(c[..k])[e] + multiset(c[k..])[e];
  }

  lemma InBag<V>(t: Table<V>, i: nat)
    requires i < |t|
    ensures multiset(t[i]) <= Bag(t)
  {
    hide Bag, Used, Full;
    BagUpdate(t, i, []);
    assert Bag(t) + multiset([]) == Bag(t);
    assert Bag(t[i := []]) + multiset(t[i]) == Bag(t);
  }

  /** No entry is in a table twice, or in both. */
  lemma NoEntryTwice<V>(hash: Hash, s: State<V>)
    requires Inv(hash, s)
    ensures forall i, j, k :: 0 <= i < |s.t0| && 0 <= j < k < |s.t0[i]| ==> s.t0[i][j] != s.t0[i][k]
    ensures forall i, j, k :: 0 <= i < |s.t1| && 0 <= j < k < |s.t1[i]| ==> s.t1[i][j] != s.t1[i][k]
    ensures forall i, k, e :: 0 <= i < |s.t0| && 0 <= k < |s.t1| && e in s.t0[i] ==> e !in s.t1[k]
    ensures Placed(hash, s.t0) && Placed(hash, s.t1)
  {
    hide Bag, Placed;
    forall i, j, k | 0 <= i < |s.t0| && 0 <= j < k < |s.t0[i]| ensures s.t0[i][j] != s.t0[i][k] {
      if s.t0[i][j] == s.t0[i][k] {
        InBag(s.t0, i);
        Twice(s.t0[i], j, k);
        OnlyOnce(hash, s, s.t0[i][j]);
      }
    }
    forall i, j, k | 0 <= i < |s.t1| && 0 <= j < k < |s.t1[i]| ensures s.t1[i][j] != s.t1[i][k] {
      if s.t1[i][j] == s.t1[i][k] {
        InBag(s.t1, i);
        Twice(s.t1[i], j, k);
        OnlyOnce(hash, s, s.t1[i][j]);
      }
    }
    forall i, k, e | 0 <= i < |s.t0| && 0 <= k < |s.t1| && e in s.t0[i] ensures e !in s.t1[k] {
      OnlyOnce(hash, s, e);
      NotBoth(s.t0, i, s.t1, k, e);
    }
    PlacedEmpty<V>(hash);
  }

  lemma NotBoth<V>(t0: Table<V>, i: nat, t1: Table<V>, k: nat, e: Entry<V>)
    requires i < |t0| && k < |t1| && e in t0[i] && Bag(t0)[e] + Bag(t1)[e] <= 1
    ensures e !in t1[k]
  {
    InBag(t0, i);
    InBag(t1, k);
    assert e in multiset(t0[i]);
    assert multiset(t1[k])[e] == 0;
  }

  lemma OnlyOnce<V>(hash: Hash, s: State<V>, e: Entry<V>)
    requires Inv(hash, s)
    ensures Bag(s.t0)[e] + Bag(s.t1)[e] <= 1
  {
    assert All(s)[e] == Bag(s.t0)[e] + Bag(s.t1)[e];
    assert e !in All(s) ==> All(s)[e] == 0;
  }

  lemma PlacedEmpty<V>(hash: Hash)
    ensures Placed<V>(hash, [])
  {
  }

  /** The keys are as many as the entries. */
  lemma {:induction false} KeysCount<V>(b: multiset<Entry<V>>, keys: set<CStr>)
    requires Unique(b) && forall k :: k in keys <==> exists e :: e in b && e.key == k
    ensures |keys| == |b|
    decreases |b|
  {
    if e :| e in b {
      var b' := b - multiset{e};
      UniqueLess(b, b', e);
      assert b == b' + multiset{e};
      forall k ensures k in keys - {e.key} <==> exists f :: f in b' && f.key == k {
        if f :| f in b' && f.key == k { assert f in b; }
        if k in keys - {e.key} {
          var f :| f in b && f.key == k;
          assert f in b';
        }
      }
      KeysCount(b', keys - {e.key});
      assert e.key in keys;
    } else {
      assert forall k :: k !in keys;
      assert keys == {};
    }
  }
}
