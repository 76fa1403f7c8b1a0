/** The dictionary object of utils/dict.c: two arrays of linked chains. */
module Dicts {
  import opened CStrings
  import opened Columns
  import opened DictTables
  import opened DictOps

  // ---- chains on the heap ---------------------------------------------------------------------------------

  ghost function Elems<V>(t: Table<V>): set<Entry<V>> {
    set i, e | 0 <= i < |t| && e in t[i] :: e
  }

  ghost function Members<V>(c: Chain<V>): set<Entry<V>> {
    set e | e in c
  }

  ghost predicate NotAnEntry<V>(o: object, c: Chain<V>) {
    var m: set<object> := Members(c); o !in m
  }

  ghost predicate NotInTable<V>(o: object?, t: Table<V>) {
    var m: set<object?> := Elems(t); o !in m
  }

  ghost predicate NotAmong<V>(o: object, b: set<Entry<V>>) {
    var m: set<object> := b; o !in m
  }

  /** The links from `first` on spell out the chain. */
  ghost predicate Chained<V>(first: Entry?<V>, c: Chain<V>)
    reads Members(c)
  {
    && first == (if c == [] then null else c[0])
    && forall j {:trigger c[j].next} :: 0 <= j < |c| ==> c[j].next == if j + 1 < |c| then c[j + 1] else null
  }

  ghost predicate TableIs<V>(table: array<Entry?<V>>, t: Table<V>)
    reads table, Elems(t)
  {
    table.Length == |t| && forall i :: 0 <= i < |t| ==> Chained(table[i], t[i])
  }

  /** No entry is in two places of a table. */
  ghost predicate NoSharing<V>(t: Table<V>) {
    && (forall i, j, k :: 0 <= i < |t| && 0 <= j < k < |t[i]| ==> t[i][j] != t[i][k])
    && (forall i, k, e :: 0 <= i < k < |t| && e in t[i] ==> e !in t[k])
  }

  /** `entry->next = ht->table[index]; ht->table[index] = entry`. */
  method PushHead<V>(table: array<Entry?<V>>, h: nat, e: Entry<V>, ghost t: Table<V>)
    requires TableIs(table, t) && h < |t| && e !in Elems(t)
    modifies table, e`next
    ensures TableIs(table, t[h := [e] + t[h]])
  {
    hide Chained;
    assert forall i :: 0 <= i < |t| ==> e !in Members(t[i]);
    e.next := table[h];
    table[h] := e;
    assert forall i :: 0 <= i < |t| && i != h ==> Chained(table[i], t[i]);
    Cons(e, t[h]);
  }

  lemma Cons<V>(e: Entry<V>, c: Chain<V>)
    requires Chained(e.next, c)
    ensures Chained(e, [e] + c)
  {
    var d := [e] + c;
    assert forall j {:trigger d[j].next} :: 0 < j < |d| ==> d[j].next == c[j - 1].next;
  }

  lemma Linked<V>(first: Entry<V>, c: Chain<V>)
    requires Chained(first, c) && c != []
    ensures first == c[0] && Chained(first.next, c[1..])
  {
    assert forall j {:trigger c[1..][j].next} :: 0 <= j < |c| - 1 ==> c[1..][j].next == c[j + 1].next;
  }

  /** The search loop along a chain. */
  method FindIn<V>(first: Entry?<V>, key: CStr, ghost c: Chain<V>) returns (he: Entry?<V>)
    requires Chained(first, c)
    ensures he == if Locate(c, key) < |c| then c[Locate(c, key)] else null
  {
    he := first;
    ghost var rest := c;
    ghost var at := 0;
    while he != null && he.key != key
      invariant Chained(he, rest) && at + |rest| == |c| && Locate(c, key) == at + Locate(rest, key)
      invariant at <= |c| && rest == c[at..]
      decreases |rest|
    {
      Linked(he, rest);
      he := he.next;
      rest := rest[1..];
      at := at + 1;
    }
  }

  ghost predicate NoRepeats<V>(c: Chain<V>) {
    forall j, k :: 0 <= j < k < |c| ==> c[j] != c[k]
  }

  lemma ElemsPush<V>(t: Table<V>, h: nat, e: Entry<V>)
    requires h < |t|
    ensures Elems(t[h := [e] + t[h]]) == Elems(t) + {e}
  {
    var t' := t[h := [e] + t[h]];
    forall x ensures x in Elems(t') <==> x in Elems(t) || x == e {
      if x in Elems(t) {
        var i :| 0 <= i < |t| && x in t[i];
        assert x in t'[i];
      }
      assert e in t'[h];
    }
  }

  lemma RestApart<V>(c: Chain<V>)
    requires NoRepeats(c) && c != []
    ensures NoRepeats(c[1..]) && c[0] !in Members(c[1..]) && Members(c) == {c[0]} + Members(c[1..])
  {
    assert c == [c[0]] + c[1..];
  }

  /** The inner loop of `dictRehash`: a chain is moved into the new table, entry by entry. */
  method MoveEntries<V>(hash: Hash, first: Entry?<V>, table: array<Entry?<V>>, sizemask: nat, ghost c: Chain<V>, ghost t: Table<V>)
    returns (n: nat)
    requires Chained(first, c) && NoRepeats(c) && TableIs(table, t) && t != [] && sizemask == |t| - 1
    requires Members(c) !! Elems(t)
    modifies table, Members(c)`next
    ensures TableIs(table, MoveChain(hash, c, t)) && n == |c|
  {
    hide Chained, TableIs, IndexOf;
    var de := first;
    ghost var rest, now := c, t;
    n := 0;
    while de != null
      invariant Chained(de, rest) && NoRepeats(rest) && TableIs(table, now) && |now| == |t|
      invariant Members(rest) !! Elems(now) && Members(rest) <= Members(c)
      invariant MoveChain(hash, rest, now) == MoveChain(hash, c, t) && n + |rest| == |c|
      decreases |rest|
    {
      NotNull(de, rest);
      Linked(de, rest);
      RestApart(rest);
      var e: Entry<V> := de;
      de := e.next;
      IndexInRange(hash, e.key, |now|);
      var h := Masked(hash, e.key, sizemask, |now|);
      ElemsPush(now, h, e);
      PushHead(table, h, e, now);
      rest, now := rest[1..], now[h := [e] + now[h]];
      n := n + 1;
    }
    IsNull(de, rest);
  }

  /** `dictHashKey(d, key) & sizemask`. */
  method Masked(hash: Hash, key: CStr, sizemask: nat, ghost size: nat) returns (idx: nat)
    requires size > 0 && sizemask == size - 1
    ensures idx == IndexOf(hash, key, size)
  {
    idx := And(hash(key), sizemask);
  }

  lemma NotNull<V>(first: Entry?<V>, c: Chain<V>)
    requires Chained(first, c) && first != null
    ensures c != []
  {
  }

  lemma IsNull<V>(first: Entry?<V>, c: Chain<V>)
    requires Chained(first, c) && first == null
    ensures c == []
  {
  }

  /** The skip, the move and the clearing of one bucket in `dictRehash`. */
  method MoveBucket<V>(hash: Hash, old_: array<Entry?<V>>, from: nat, new_: array<Entry?<V>>, sizemask: nat, ghost t0: Table<V>, ghost t1: Table<V>)
    returns (j: nat, n: nat)
    requires TableIs(old_, t0) && TableIs(new_, t1) && old_ != new_ && NoSharing(t0) && Elems(t0) !! Elems(t1)
    requires t1 != [] && sizemask == |t1| - 1 && from <= |t0| && FirstFull(t0, from) < |t0|
    modifies old_, new_, Elems(t0)`next
    ensures j == FirstFull(t0, from) && n == |t0[j]|
    ensures TableIs(old_, t0[j := []]) && TableIs(new_, MoveChain(hash, t0[j], t1))
  {
    hide Chained;
    j := from;
    while old_[j] == null
      invariant from <= j <= FirstFull(t0, from) && TableIs(old_, t0) && TableIs(new_, t1)
      decreases |t0| - j
    {
      IsNull(old_[j], t0[j]);
      j := j + 1;
    }
    BucketIsFull(old_[j], t0, from, j);
    ApartFromBucket(t0, j);
    n := MoveEntries(hash, old_[j], new_, sizemask, t0[j], t1);
    assert forall i :: 0 <= i < |t0| && i != j ==> Chained(old_[i], t0[i]);
    assert NotInTable(old_, MoveChain(hash, t0[j], t1));
    ClearSlot(old_, j, t0);
  }

  /** `d->ht[0].table[d->rehashidx] = NULL`. */
  method ClearSlot<V>(table: array<Entry?<V>>, j: nat, ghost t: Table<V>)
    requires table.Length == |t| && j < |t| && forall i :: 0 <= i < |t| && i != j ==> Chained(table[i], t[i])
    modifies table
    ensures TableIs(table, t[j := []])
  {
    hide Chained;
    assert forall i :: 0 <= i < |t| ==> NotAnEntry(table, t[i]);
    table[j] := null;
    NullChain<V>();
    assert forall i :: 0 <= i < |t| && i != j ==> Chained(table[i], t[i]);
  }

  lemma NullChain<V>()
    ensures Chained<V>(null, [])
  {
  }

  lemma BucketIsFull<V>(first: Entry?<V>, t: Table<V>, from: nat, j: nat)
    requires from <= |t| && from <= j <= FirstFull(t, from) < |t| && Chained(first, t[j]) && first != null
    ensures j == FirstFull(t, from)
  {
  }

  lemma ApartFromBucket<V>(t: Table<V>, j: nat)
    requires NoSharing(t) && j < |t|
    ensures NoRepeats(t[j]) && Members(t[j]) <= Elems(t)
    ensures forall i :: 0 <= i < |t| && i != j ==> Members(t[i]) !! Members(t[j])
  {
  }

  function After<V>(c: Chain<V>, j: nat): Entry?<V> {
    if j + 1 < |c| then c[j + 1] else null
  }

  lemma Spliced<V>(first: Entry?<V>, c: Chain<V>, j: nat)
    requires j < |c| && forall k {:trigger c[k].next} :: 0 <= k < |c| && k + 1 != j ==> c[k].next == After(c, k)
    requires if j == 0 then first == After(c, 0) else first == c[0] && c[j - 1].next == After(c, j)
    ensures Chained(first, c[..j] + c[j + 1..])
  {
    var d := c[..j] + c[j + 1..];
    assert forall k {:trigger d[k].next} :: 0 <= k < j ==> d[k].next == c[k].next;
    assert forall k {:trigger d[k].next} :: j <= k < |d| ==> d[k].next == c[k + 1].next;
  }

  /** The loop of `dictGenericDelete` along one chain. */
  method FindWithPrevious<V>(first: Entry?<V>, key: CStr, ghost c: Chain<V>) returns (he: Entry?<V>, prevHe: Entry?<V>)
    requires Chained(first, c)
    ensures he == if Locate(c, key) < |c| then c[Locate(c, key)] else null
    ensures he != null ==> prevHe == if Locate(c, key) == 0 then null else c[Locate(c, key) - 1]
  {
    he, prevHe := first, null;
    ghost var at := 0;
    while he != null && he.key != key
      invariant at <= |c| && Chained(he, c[at..]) && Locate(c, key) == at + Locate(c[at..], key)
      invariant prevHe == if at == 0 then null else c[at - 1]
      decreases |c| - at
    {
      Linked(he, c[at..]);
      assert c[at..][1..] == c[at + 1..];
      prevHe, he := he, he.next;
      at := at + 1;
    }
  }

  /** Unlinks the entry of `key` from its chain. */
  method CutFrom<V>(table: array<Entry?<V>>, h: nat, key: CStr, ghost t: Table<V>) returns (he: Entry?<V>)
    requires TableIs(table, t) && h < |t| && NoSharing(t)
    modifies table, Elems(t)`next
    ensures he == if Locate(t[h], key) < |t[h]| then t[h][Locate(t[h], key)] else null
    ensures he == null ==> TableIs(table, t)
    ensures he != null ==> TableIs(table, t[h := t[h][..Locate(t[h], key)] + t[h][Locate(t[h], key) + 1..]])
  {
    ghost var c := t[h];
    ghost var j := Locate(c, key);
    var prevHe;
    he, prevHe := FindWithPrevious(table[h], key, c);
    if he != null {
      ApartFromBucket(t, h);
      Unlink(table, h, he, prevHe, t, j);
    }
  }

  method Unlink<V>(table: array<Entry?<V>>, h: nat, he: Entry<V>, prevHe: Entry?<V>, ghost t: Table<V>, ghost j: nat)
    requires TableIs(table, t) && h < |t| && NoRepeats(t[h]) && j < |t[h]| && he == t[h][j]
    requires prevHe == if j == 0 then null else t[h][j - 1]
    requires forall i :: 0 <= i < |t| && i != h ==> Members(t[i]) !! Members(t[h])
    modifies table, Members(t[h])`next
    ensures TableIs(table, t[h := t[h][..j] + t[h][j + 1..]])
  {
    ghost var c := t[h];
    assert forall i :: 0 <= i < |t| ==> NotAnEntry(table, t[i]);
    assert he.next == After(c, j);
    if prevHe != null {
      prevHe.next := he.next;
    } else {
      table[h] := he.next;
    }
    Spliced(table[h], c, j);
    assert forall i :: 0 <= i < |t| && i != h ==> Chained(table[i], t[i]);
  }

  // ---- the dictionary -------------------------------------------------------------------------------------

  /** `dictht`. */
  datatype DictHt<V> = DictHt(table: array?<Entry?<V>>, size: nat, sizemask: nat, used: nat)

  ghost function Slots<V>(h: DictHt<V>): set<object> {
    if h.table == null then {} else {h.table}
  }

  ghost predicate HtIs<V>(h: DictHt<V>, t: Table<V>)
    reads Slots(h), Elems(t)
  {
    && h.size == |t| && h.used == Used(t)
    && if t == [] then h.table == null else h.table != null && h.sizemask == |t| - 1 && TableIs(h.table, t)
  }

  /** The entries are those of the map. */
  ghost predicate MapIs<V>(b: set<Entry<V>>, m: map<CStr, V>)
    reads b
  {
    && (forall e :: e in b ==> e.key in m && m[e.key] == e.val)
    && (forall k :: k in m ==> exists e :: e in b && e.key == k)
  }

  lemma Apart<V>(hash: Hash, s: State<V>)
    requires Inv(hash, s)
    ensures NoSharing(s.t0) && NoSharing(s.t1) && Elems(s.t0) !! Elems(s.t1)
  {
    hide Bag, IndexOf, Power;
    NoEntryTwice(hash, s);
    InOneBucket(hash, s.t0);
    InOneBucket(hash, s.t1);
    forall e | e in Elems(s.t0) ensures e !in Elems(s.t1) {
      var i :| 0 <= i < |s.t0| && e in s.t0[i];
    }
  }

  lemma InOneBucket<V>(hash: Hash, t: Table<V>)
    requires Placed(hash, t)
    ensures forall i, k, e :: 0 <= i < k < |t| && e in t[i] ==> e !in t[k]
  {
    hide IndexOf;
    forall i, k, e | 0 <= i < k < |t| && e in t[i] ensures e !in t[k] {
      assert IndexOf(hash, e.key, |t|) == i;
    }
  }

  ghost function SetOf<V>(b: multiset<Entry<V>>): set<Entry<V>> {
    set e | e in b
  }

  lemma {:induction false} ElemsAre<V>(t: Table<V>)
    ensures Elems(t) == SetOf(Bag(t))
  {
    if t != [] {
      ElemsAre(t[1..]);
      assert Elems(t) == Members(t[0]) + Elems(t[1..]) by { ElemsHead(t); }
    }
  }

  lemma ElemsHead<V>(t: Table<V>)
    requires t != []
    ensures Elems(t) == Members(t[0]) + Elems(t[1..])
  {
    assert forall i :: 0 < i < |t| ==> t[i] == t[1..][i - 1];
    assert forall i, e :: 0 <= i < |t[1..]| && e in t[1..][i] ==> e in t[i + 1];
  }

  lemma SameElems<V>(s: State<V>, s': State<V>)
    requires All(s') == All(s)
    ensures Elems(s'.t0) + Elems(s'.t1) == Elems(s.t0) + Elems(s.t1)
  {
    hide Bag, Elems;
    ElemsAre(s.t0);
    ElemsAre(s.t1);
    ElemsAre(s'.t0);
    ElemsAre(s'.t1);
    assert SetOf(All(s)) == SetOf(Bag(s.t0)) + SetOf(Bag(s.t1));
    assert SetOf(All(s')) == SetOf(Bag(s'.t0)) + SetOf(Bag(s'.t1));
  }

  class Dict<V> {
    const hash: Hash
    var ht0: DictHt<V>
    var ht1: DictHt<V>
    var rehashidx: int
    var iterators: nat
    ghost var s: State<V>
    ghost var entries: set<Entry<V>>
    ghost var contents: map<CStr, V>

    /** `dictCreate`. */
    constructor (hash: Hash)
      ensures Valid() && contents == map[] && this.hash == hash && Load(s) && s.iterators == 0
    {
      this.hash := hash;
      ht0, ht1 := DictHt(null, 0, 0, 0), DictHt(null, 0, 0, 0);
      rehashidx, iterators := -1, 0;
      s, entries, contents := State([], [], -1, 0), {}, map[];
    }

    ghost function Repr(): set<object>
      reads this
    {
      {this} + Slots(ht0) + Slots(ht1) + entries
    }

    ghost predicate Valid()
      reads this, Slots(ht0), Slots(ht1), entries
    {
      && entries == Elems(s.t0) + Elems(s.t1) && HtIs(ht0, s.t0) && HtIs(ht1, s.t1) && (ht0.table != null ==> ht0.table != ht1.table)
      && rehashidx == s.rehashidx && iterators == s.iterators && Inv(hash, s) && MapIs(entries, contents)
    }

    /** `dictRehash(d, 1)`. */
    method RehashStep()
      requires Valid() && Rehashing(s)
      modifies `ht0, `ht1, `rehashidx, `s, Slots(ht0), Slots(ht1), entries`next
      ensures Valid() && s == RehashOnce(hash, old(s)) && Slots(ht0) + Slots(ht1) <= old(Slots(ht0) + Slots(ht1))
    {
      hide Inv, Stage, HtIs, RehashOnce, MapIs, Bag, Elems;
      StageOf(hash, s);
      RehashKeeps(hash, s);
      ghost var next := RehashOnce(hash, s);
      SameElems(s, next);
      Rehashed(next);
      assert this !in Slots(ht0) && this !in Slots(ht1);
      assert NotInTable(this, next.t0) && NotInTable(this, next.t1) by { NotElems(this, next); }
      s := next;
      assert HtIs(ht0, s.t0) && HtIs(ht1, s.t1);
    }

    /** Either way of a rehash step. */
    method Rehashed(ghost next: State<V>)
      requires Valid() && Rehashing(s) && next == RehashOnce(hash, s)
      modifies `ht0, `ht1, `rehashidx, Slots(ht0), Slots(ht1), entries`next
      ensures HtIs(ht0, next.t0) && HtIs(ht1, next.t1) && (ht0.table != null ==> ht0.table != ht1.table)
      ensures rehashidx == next.rehashidx && next.iterators == s.iterators && MapIs(entries, contents)
      ensures Slots(ht0) + Slots(ht1) <= old(Slots(ht0) + Slots(ht1))
    {
      hide Inv, Stage, HtIs, RehashOnce, Used, FirstFull, MoveChain, Bag;
      StageOf(hash, s);
      RehashSpelt(hash, s);
      Apart(hash, s);
      assert NotInTable(this, next.t0) && NotInTable(this, next.t1);
      BothTables(ht0, ht1, s);
      if ht0.used == 0 {
        GiveUp();
      } else {
        MoveOne(next.t0, next.t1);
      }
    }

    /** `if (dictIsRehashing(d)) _dictRehashStep(d)`. */
    method MaybeStep()
      requires Valid()
      modifies `ht0, `ht1, `rehashidx, `s, Slots(ht0), Slots(ht1), entries`next
      ensures Valid() && s == Quiet(hash, old(s)) && Slots(ht0) + Slots(ht1) <= old(Slots(ht0) + Slots(ht1))
    {
      hide Inv, HtIs, RehashOnce, MapIs, Elems;
      StageOf(hash, s);
      if rehashidx != -1 && iterators == 0 {
        RehashStep();
      }
    }

    /** `dictExpand`. */
    method Expand(size: nat) returns (ok: bool)
      requires Valid() && size < LONG_MAX
      modifies `ht0, `ht1, `rehashidx, `s
      ensures Valid() && ok == DictOps.Expand(old(s), size).Some?
      ensures s == (if ok then DictOps.Expand(old(s), size).value else old(s)) && fresh(Slots(ht0) + Slots(ht1) - old(Slots(ht0) + Slots(ht1)))
    {
      hide Inv, MapIs, HtIs, TableIs, NextPower, Used, Elems;
      StageOf(hash, s);
      Sizes(ht0, s.t0);
      if rehashidx != -1 || ht0.used > size {
        return false;
      }
      ok := true;
      var realsize := NextPowerOf(size);
      ExpandKeeps(hash, s, size);
      NextPowerIs(size);
      BucketsEmpty<V>(Buckets(realsize));
      ghost var next := DictOps.Expand(s, size).value;
      SameElems(s, next);
      var n := NewHt<V>(realsize);
      NotElems(this, s);
      NotElems(this, next);
      assert this !in Slots(ht0) && this !in Slots(ht1) && this !in Slots(n);
      if ht0.table == null {
        ht0 := n;
      } else {
        ht1 := n;
        rehashidx := 0;
      }
      s := next;
    }

    /** `_dictExpandIfNeeded`; `canResize` is `dict_can_resize`. */
    method ExpandIfNeeded(canResize: bool)
      requires Valid() && Doubles(s)
      modifies `ht0, `ht1, `rehashidx, `s
      ensures Valid() && s == DictOps.ExpandIfNeeded(canResize, old(s)) && s.t0 != []
      ensures fresh(Slots(ht0) + Slots(ht1) - old(Slots(ht0) + Slots(ht1)))
    {
      hide Inv, HtIs, MapIs, Used, Elems, DictOps.Expand;
      ExpandIfNeededKeeps(hash, canResize, s);
      WantedIsGranted(canResize, s);
      Sizes(ht0, s.t0);
      if rehashidx != -1 {
        return;
      }
      if ht0.size == 0 {
        var _ := Expand(DICT_HT_INITIAL_SIZE);
      } else if ht0.used >= ht0.size && (canResize || ht0.used / ht0.size > FORCE_RESIZE_RATIO) {
        var _ := Expand((if ht0.size > ht0.used then ht0.size else ht0.used) * 2);
      }
    }

    /** The search of `dictFind`, `_dictKeyIndex` and `dictGenericDelete` in one table. */
    method FindInTable(h: DictHt<V>, key: CStr, ghost t: Table<V>) returns (he: Entry?<V>, idx: nat)
      requires t != [] && HtIs(h, t)
      ensures idx < h.size && idx == IndexOf(hash, key, |t|)
      ensures he == match SearchTable(hash, t, key) case None => null case Some(e) => e
    {
      hide Chained, And;
      IndexInRange(hash, key, |t|);
      idx := And(hash(key), h.sizemask);
      he := FindIn(h.table[idx], key, t[idx]);
    }

    /** The loop over the tables in `dictFind` and `_dictKeyIndex`; `idx` is the bucket in the last one. */
    method FindInBoth(key: CStr) returns (he: Entry?<V>, idx: nat)
      requires Valid() && s.t0 != []
      ensures he == match Search(hash, s, key) case None => null case Some(e) => e
      ensures he == null ==> idx == IndexOf(hash, key, if Rehashing(s) then |s.t1| else |s.t0|)
    {
      hide HtIs, MapIs, SearchTable, IndexOf, TableOk, Unique;
      assert this !in Slots(ht1) && Elems(s.t1) <= entries;
      he, idx := FindInTable(ht0, key, s.t0);
      if he == null && rehashidx != -1 {
        he, idx := FindInTable(ht1, key, s.t1);
      }
    }

    /** What a search says about the map. */
    lemma Meaning(key: CStr)
      requires Valid() && s.t0 != []
      ensures match Search(hash, s, key)
              case Some(e) => e in entries && e.key == key && key in contents && contents[key] == e.val
              case None => key !in contents
    {
      hide HtIs, Inv, Search, Bag, Elems;
      SearchIs(hash, s, key);
      EntriesAre(s);
    }

    /** `dictFind`: the map stays, whatever the rehash step moves. */
    method Find(key: CStr) returns (he: Entry?<V>)
      requires Valid()
      modifies `ht0, `ht1, `rehashidx, `s, Slots(ht0), Slots(ht1), entries`next
      ensures Valid() && s == (if old(s).t0 == [] then old(s) else Quiet(hash, old(s)))
      ensures Slots(ht0) + Slots(ht1) <= old(Slots(ht0) + Slots(ht1))
      ensures he == null <==> key !in contents
      ensures he != null ==> he in entries && he.key == key && he.val == contents[key]
      ensures Load(old(s)) ==> Load(s)
    {
      hide Inv, HtIs, MapIs, Elems, Quiet, Search, Load;
      Sizes(ht0, s.t0);
      if ht0.size == 0 {
        NoEntries();
        return null;
      }
      QuietHasTable(hash, s);
      QuietKeepsLoad(hash, s);
      MaybeStep();
      Meaning(key);
      var idx;
      he, idx := FindInBoth(key);
    }

    lemma NoEntries()
      requires Valid() && s.t0 == []
      ensures contents == map[]
    {
      assert s.t1 == [];
      assert contents.Keys == {};
    }

    /** `dictAdd`: the map gets the key exactly when it does not have it. */
    method Add(canResize: bool, key: CStr, val: V) returns (ok: bool, ghost e: Entry?<V>)
      requires Valid() && Doubles(Quiet(hash, s))
      modifies this, Slots(ht0), Slots(ht1), entries`next
      ensures Valid() && ok == (key !in old(contents)) && contents == (if ok then old(contents)[key := val] else old(contents))
      ensures Prepared(hash, canResize, old(s)).t0 != [] && Stage(Prepared(hash, canResize, old(s)))
      ensures if ok then e != null && fresh(e) && e.key == key && entries == old(entries) + {e} && s == Insert(hash, Prepared(hash, canResize, old(s)), e)
              else entries == old(entries) && s == Prepared(hash, canResize, old(s))
      ensures canResize && old(s).iterators == 0 && Load(old(s)) ==> Load(s)
      ensures fresh(Slots(ht0) + Slots(ht1) - old(Slots(ht0) + Slots(ht1)))
    {
      hide Inv, HtIs, MapIs, Elems, Quiet, Search, DictOps.ExpandIfNeeded, Load, Insert, Doubles;
      ghost var before := s;
      StageOf(hash, s);
      QuietKeeps(hash, s);
      MaybeStep();
      ExpandIfNeeded(canResize);
      StageOf(hash, s);
      ghost var p := s;
      Meaning(key);
      assert this !in Slots(ht0) && this !in Slots(ht1) && Elems(s.t0) + Elems(s.t1) == entries;
      var he, index := FindInBoth(key);
      ok, e := he == null, null;
      if ok {
        e := InsertNew(key, val, index);
      }
      if canResize && before.iterators == 0 && Load(before) {
        AddsLoad(hash, before, p, e);
      }
    }

    /** The end of `dictAdd`: a new entry at the head of its bucket. */
    method InsertNew(key: CStr, val: V, index: nat) returns (ghost e: Entry<V>)
      requires Valid() && s.t0 != [] && Search(hash, s, key) == None && key !in contents
      requires index == IndexOf(hash, key, if Rehashing(s) then |s.t1| else |s.t0|)
      modifies `ht0, `ht1, `s, `entries, `contents, Slots(ht0), Slots(ht1)
      ensures Valid() && fresh(e) && e.key == key && entries == old(entries) + {e} && contents == old(contents)[key := val]
      ensures Stage(old(s)) && s == Insert(hash, old(s), e) && ht0.table == old(ht0.table) && ht1.table == old(ht1.table)
    {
      hide Inv, HtIs, Elems, Search, Bag, IndexOf, Insert, MapIs;
      StageOf(hash, s);
      SearchIs(hash, s, key);
      EntriesAre(s);
      assert this !in Slots(ht0) && this !in Slots(ht1) && Elems(s.t0) <= entries && Elems(s.t1) <= entries;
      var entry := new Entry<V>(key, val, null);
      e := entry;
      ghost var next := Insert(hash, s, e);
      InsertKeeps(hash, s, e);
      InsertElems(hash, s, e);
      PutEntry(entry, index, next);
      NotElems(this, next);
      assert this !in Slots(ht0) && this !in Slots(ht1);
      MapMore(entries, contents, e);
      assert NotAmong(this, entries + {e});
      s, entries, contents := next, entries + {e}, contents[key := val];
    }

    method PutEntry(entry: Entry<V>, index: nat, ghost next: State<V>)
      requires HtIs(ht0, s.t0) && HtIs(ht1, s.t1) && s.t0 != [] && Stage(s) && rehashidx == s.rehashidx
      requires (ht0.table != null ==> ht0.table != ht1.table) && next == Insert(hash, s, entry)
      requires index == IndexOf(hash, entry.key, if Rehashing(s) then |s.t1| else |s.t0|)
      requires entries == Elems(s.t0) + Elems(s.t1) && entry !in entries
      modifies `ht0, `ht1, Slots(ht0), Slots(ht1), entry`next
      ensures HtIs(ht0, next.t0) && HtIs(ht1, next.t1) && ht0.table == old(ht0.table) && ht1.table == old(ht1.table)
    {
      hide HtIs, Elems, IndexOf;
      NotElems(this, s);
      NotElems(this, next);
      assert this !in Slots(ht0) && this !in Slots(ht1) && NotInTable(ht1.table, s.t0) && NotInTable(ht0.table, s.t1);
      assert entry !in Slots(ht0) && entry !in Slots(ht1) && Slots(ht0) !! Slots(ht1) && Elems(s.t0) <= entries && Elems(s.t1) <= entries;
      Sizes(ht0, s.t0);
      Sizes(ht1, s.t1);
      if rehashidx != -1 {
        IndexInRange(hash, entry.key, |s.t1|);
        var r := PushHt(ht1, index, entry, s.t1);
        assert this !in Slots(r);
        ht1 := r;
      } else {
        IndexInRange(hash, entry.key, |s.t0|);
        var r := PushHt(ht0, index, entry, s.t0);
        assert this !in Slots(r);
        ht0 := r;
      }
    }

    /** `dictGenericDelete`: exactly the key goes, from whichever table has it. */
    method Delete(key: CStr) returns (ok: bool)
      requires Valid()
      modifies `ht0, `ht1, `rehashidx, `s, `entries, `contents, Slots(ht0), Slots(ht1), entries`next
      ensures Valid() && ok == (key in old(contents)) && contents == old(contents) - {key}
      ensures entries <= old(entries) && Slots(ht0) + Slots(ht1) <= old(Slots(ht0) + Slots(ht1))
      ensures Load(old(s)) ==> Load(s)
    {
      hide Inv, HtIs, MapIs, Elems, Quiet, Load;
      StageOf(hash, s);
      Sizes(ht0, s.t0);
      if ht0.size == 0 {
        NoEntries();
        return false;
      }
      QuietHasTable(hash, s);
      QuietKeepsLoad(hash, s);
      MaybeStep();
      ok := DeleteHere(key);
    }

    /** `dictGenericDelete` after its rehash step. */
    method DeleteHere(key: CStr) returns (ok: bool)
      requires Valid() && s.t0 != []
      modifies `ht0, `ht1, `s, `entries, `contents, Slots(ht0), Slots(ht1), entries`next
      ensures Valid() && ok == (key in old(contents)) && contents == old(contents) - {key}
      ensures entries <= old(entries) && Slots(ht0) + Slots(ht1) <= old(Slots(ht0) + Slots(ht1))
      ensures Load(old(s)) ==> Load(s)
    {
      hide Inv, HtIs, MapIs, Elems, Search, Remove, Load, Bag;
      StageOf(hash, s);
      Meaning(key);
      ghost var q := s;
      RemoveKeeps(hash, q, key);
      ghost var e := Search(hash, q, key);
      ok := CutEntry(key);
      if ok {
        RemoveElems(hash, q, key);
        RemovesLoad(hash, q, key);
        ghost var next := Remove(hash, q, key).value;
        NotElems(this, next);
        assert this !in Slots(ht0) && this !in Slots(ht1) && NotAmong(this, entries);
        MapLess(entries, contents, e.value);
        s, entries, contents := next, entries - {e.value}, contents - {key};
      } else {
        assert contents - {key} == contents;
      }
    }

    /** The loop over the tables in `dictGenericDelete`. */
    method CutEntry(key: CStr) returns (ok: bool)
      requires Valid() && s.t0 != []
      modifies `ht0, `ht1, Slots(ht0), Slots(ht1), entries`next
      ensures Stage(s) && ok == Remove(hash, s, key).Some? && MapIs(entries, contents)
      ensures ht0.table == old(ht0.table) && ht1.table == old(ht1.table)
      ensures var n := if ok then Remove(hash, s, key).value else s;
              HtIs(ht0, n.t0) && HtIs(ht1, n.t1) && n.rehashidx == s.rehashidx && n.iterators == s.iterators
    {
      hide HtIs, Elems, SearchTable, Cut, TableOk, Unique, Bag;
      Apart(hash, s);
      assert TableOk(hash, s.t0) && TableOk(hash, s.t1);
      NotElems(this, s);
      Sizes(ht0, s.t0);
      Sizes(ht1, s.t1);
      assert this !in Slots(ht0) && this !in Slots(ht1) && Slots(ht0) !! Slots(ht1) && Elems(s.t0) <= entries && Elems(s.t1) <= entries;
      assert NotInTable(ht1.table, s.t0) && NotInTable(ht0.table, s.t1);
      var he, r := CutHt(hash, ht0, key, s.t0);
      assert this !in Slots(r);
      if he != null {
        NotInTableCut(this, hash, s.t0, key);
        ht0 := r;
        return true;
      }
      if rehashidx != -1 {
        he, r := CutHt(hash, ht1, key, s.t1);
        assert this !in Slots(r);
        if he != null {
          NotInTableCut(this, hash, s.t1, key);
          ht1 := r;
          return true;
        }
      }
      return false;
    }

    /** `dictReplace`: the key gets the value either way. */
    method Replace(canResize: bool, key: CStr, val: V) returns (added: bool)
      requires Valid() && Doubles(Quiet(hash, s))
      modifies this, Slots(ht0), Slots(ht1), entries
      ensures Valid() && added == (key !in old(contents)) && contents == old(contents)[key := val]
      ensures canResize && old(s).iterators == 0 && Load(old(s)) ==> Load(s)
    {
      hide Inv, HtIs, MapIs, Elems, Quiet, DictOps.ExpandIfNeeded, Load, Insert, Doubles, Prepared;
      ghost var e;
      added, e := Add(canResize, key, val);
      if !added {
        var entry := Find(key);
        SetVal(entry, val);
      }
    }

    /** `dictSetHashVal`. */
    method SetVal(entry: Entry<V>, val: V)
      requires Valid() && entry in entries
      modifies `contents, entry`val
      ensures Valid() && s == old(s) && contents == old(contents)[entry.key := val]
    {
      hide Inv, TableOk, Used, Bag;
      OneEntry(entry);
      entry.val := val;
      contents := contents[entry.key := val];
    }

    lemma OneEntry(entry: Entry<V>)
      requires Valid() && entry in entries
      ensures entry.key in contents && forall e :: e in entries && e.key == entry.key ==> e == entry
    {
      hide HtIs, Bag, TableOk, Stage, Elems;
      EntriesAre(s);
    }

    /** `dictSize`: the entries of both tables are as many as the map's keys. */
    method Size() returns (n: nat)
      requires Valid()
      ensures n == |contents|
    {
      hide HtIs, Bag, TableOk, Stage, Elems;
      Sizes(ht0, s.t0);
      Sizes(ht1, s.t1);
      EntriesAre(s);
      UsedIsBag(s.t0);
      UsedIsBag(s.t1);
      KeysCount(All(s), contents.Keys);
      n := ht0.used + ht1.used;
    }

    /** The first table is empty: `d->ht[0] = d->ht[1]`. */
    method GiveUp()
      requires HtIs(ht1, s.t1)
      modifies `ht0, `ht1, `rehashidx
      ensures HtIs(ht0, s.t1) && HtIs(ht1, []) && ht0 == old(ht1) && ht1.table == null && rehashidx == -1
    {
      ht0, ht1, rehashidx := ht1, DictHt(null, 0, 0, 0), -1;
    }

    /** The first bucket that is not empty moves. */
    method MoveOne(ghost t0: Table<V>, ghost t1: Table<V>)
      requires HtIs(ht0, s.t0) && HtIs(ht1, s.t1) && ht0.table != null && ht1.table != null && ht0.table != ht1.table
      requires NoSharing(s.t0) && Elems(s.t0) !! Elems(s.t1) && s.t1 != []
      requires 0 <= rehashidx <= |s.t0| && FirstFull(s.t0, rehashidx) < |s.t0|
      requires var c := s.t0[FirstFull(s.t0, rehashidx)];
               && t0 == s.t0[FirstFull(s.t0, rehashidx) := []] && t1 == MoveChain(hash, c, s.t1)
               && Used(t0) + |c| == Used(s.t0) && Used(t1) == Used(s.t1) + |c|
      modifies `ht0, `ht1, `rehashidx, ht0.table, ht1.table, Elems(s.t0)`next
      ensures HtIs(ht0, t0) && HtIs(ht1, t1) && ht0.table == old(ht0.table) && ht1.table == old(ht1.table)
      ensures rehashidx == FirstFull(s.t0, old(rehashidx)) + 1
    {
      hide TableIs, Used, FirstFull, MoveChain;
      assert NotInTable(this, t0) && NotInTable(this, t1);
      var j, n := MoveBucket(hash, ht0.table, rehashidx, ht1.table, ht1.sizemask, s.t0, s.t1);
      ht0, ht1 := ht0.(used := ht0.used - n), ht1.(used := ht1.used + n);
      rehashidx := j + 1;
    }
  }

  /** `_dictNextPower`. */
  method NextPowerOf(size: nat) returns (i: nat)
    ensures i == NextPower(size)
  {
    i := DICT_HT_INITIAL_SIZE;
    if size >= LONG_MAX {
      return LONG_MAX;
    }
    while i < size
      invariant i > 0 && NextPowerFrom(i, size) == NextPowerFrom(DICT_HT_INITIAL_SIZE, size)
      decreases size - i
    {
      i := 2 * i;
    }
  }

  /** A new table of empty buckets. */
  method NewHt<V>(n: nat) returns (h: DictHt<V>)
    requires n > 0
    ensures HtIs(h, Buckets(n)) && h.table != null && fresh(h.table)
  {
    hide Chained;
    var table := new Entry?<V>[n](_ => null);
    NullChain<V>();
    BucketsEmpty<V>(Buckets(n));
    h := DictHt(table, n, n - 1, 0);
  }

  lemma Sizes<V>(h: DictHt<V>, t: Table<V>)
    requires HtIs(h, t)
    ensures h.used == Used(t) && h.size == |t| && (h.table == null <==> t == [])
  {
    hide TableIs, Used;
  }

  lemma EntriesAre<V>(s: State<V>)
    ensures Elems(s.t0) + Elems(s.t1) == SetOf(All(s))
  {
    hide Bag, Elems;
    ElemsAre(s.t0);
    ElemsAre(s.t1);
  }

  lemma QuietHasTable<V>(hash: Hash, s: State<V>)
    requires Inv(hash, s) && s.t0 != []
    ensures Quiet(hash, s).t0 != []
  {
    hide Bag, TableOk, Unique, MoveChain;
  }

  lemma MapMore<V>(b: set<Entry<V>>, m: map<CStr, V>, e: Entry<V>)
    requires MapIs(b, m) && e.key !in m
    ensures MapIs(b + {e}, m[e.key := e.val])
  {
    assert e in b + {e};
    forall k | k in m ensures exists f :: f in b + {e} && f.key == k {
      var f :| f in b && f.key == k;
      assert f in b + {e};
    }
  }

  lemma NotInTableCut<V>(o: object, hash: Hash, t: Table<V>, key: CStr)
    requires t != [] && SearchTable(hash, t, key).Some? && NotInTable(o, t)
    ensures NotInTable(o, Cut(hash, t, key))
  {
    hide IndexOf;
    CutElems(hash, t, key);
  }

  lemma CutElems<V>(hash: Hash, t: Table<V>, key: CStr)
    requires t != [] && SearchTable(hash, t, key).Some?
    ensures Elems(Cut(hash, t, key)) <= Elems(t)
  {
    hide IndexOf;
    IndexInRange(hash, key, |t|);
    assert forall i, e :: 0 <= i < |t| && e in Cut(hash, t, key)[i] ==> e in t[i];
  }

  /** The search and the unlinking of `dictGenericDelete` in one table. */
  method CutHt<V>(hash: Hash, h: DictHt<V>, key: CStr, ghost t: Table<V>) returns (he: Entry?<V>, r: DictHt<V>)
    requires t != [] && HtIs(h, t) && NoSharing(t)
    modifies Slots(h), Elems(t)`next
    ensures he == match SearchTable(hash, t, key) case None => null case Some(e) => e
    ensures r.table == h.table && if he == null then r == h && HtIs(h, t) else HtIs(r, Cut(hash, t, key))
  {
    hide TableIs, And, Used, Bag, Full, NoSharing;
    IndexInRange(hash, key, |t|);
    var idx := And(hash(key), h.sizemask);
    he := CutFrom(h.table, idx, key, t);
    r := h;
    if he != null {
      CutBag(t, idx, Locate(t[idx], key));
      UsedIsBag(t);
      r := h.(used := h.used - 1);
    }
  }

  lemma QuietKeepsLoad<V>(hash: Hash, s: State<V>)
    requires Inv(hash, s)
    ensures Load(s) ==> Load(Quiet(hash, s))
  {
    hide Load, Inv, RehashOnce;
    StageOf(hash, s);
    if Load(s) && Rehashing(s) { RehashLoad(hash, s); }
  }

  lemma RemovesLoad<V>(hash: Hash, s: State<V>, key: CStr)
    requires Inv(hash, s) && s.t0 != [] && Remove(hash, s, key).Some?
    ensures Load(s) ==> Load(Remove(hash, s, key).value)
  {
    hide Load, Inv, Remove;
    StageOf(hash, s);
    if Load(s) { RemoveLoad(hash, s, key); }
  }

  lemma RemoveElems<V>(hash: Hash, s: State<V>, key: CStr)
    requires Inv(hash, s) && s.t0 != [] && Remove(hash, s, key).Some?
    ensures Search(hash, s, key).Some?
    ensures var r, e := Remove(hash, s, key).value, Search(hash, s, key).value;
            && Elems(r.t0) + Elems(r.t1) == Elems(s.t0) + Elems(s.t1) - {e}
            && forall f :: f in Elems(s.t0) + Elems(s.t1) && f.key == e.key ==> f == e
  {
    hide Bag, Elems, Remove, Search, Stage, TableOk;
    StageOf(hash, s);
    RemoveKeeps(hash, s, key);
    var r, e := Remove(hash, s, key).value, Search(hash, s, key).value;
    EntriesAre(s);
    EntriesAre(r);
    assert e in All(s);
    SetLess(All(s), All(r), e);
  }

  lemma SetLess<V>(b: multiset<Entry<V>>, a: multiset<Entry<V>>, e: Entry<V>)
    requires Unique(b) && a + multiset{e} == b
    ensures SetOf(a) == SetOf(b) - {e}
  {
    assert b[e] == a[e] + 1;
    assert e in b;
    assert forall f :: f in b && f != e ==> b[f] == a[f];
  }

  lemma MapLess<V>(b: set<Entry<V>>, m: map<CStr, V>, e: Entry<V>)
    requires MapIs(b, m) && e in b && forall f :: f in b && f.key == e.key ==> f == e
    ensures MapIs(b - {e}, m - {e.key})
  {
    forall k | k in m - {e.key} ensures exists f :: f in b - {e} && f.key == k {
      var f :| f in b && f.key == k;
      assert f in b - {e};
    }
  }

  lemma AddsLoad<V>(hash: Hash, before: State<V>, p: State<V>, e: Entry?<V>)
    requires Inv(hash, before) && before.iterators == 0 && Load(before) && Doubles(Quiet(hash, before)) && p == Prepared(hash, true, before)
    ensures p.t0 != [] && Stage(p) && Load(p) && (e != null ==> Load(Insert(hash, p, e)))
  {
    hide Inv, Load, Insert, Doubles, Quiet, DictOps.ExpandIfNeeded;
    StageOf(hash, before);
    if e != null {
      AddLoad(hash, before, e);
    } else {
      PreparedHasLoad(hash, before);
    }
  }

  lemma PreparedHasLoad<V>(hash: Hash, s: State<V>)
    requires Inv(hash, s) && Load(s) && s.iterators == 0 && Doubles(Quiet(hash, s))
    ensures var p := Prepared(hash, true, s); p.t0 != [] && Stage(p) && Load(p)
  {
    hide Used, Full, Bag, Placed, Unique, RehashOnce, NextPower;
    var q := Quiet(hash, s);
    QuietKeeps(hash, s);
    if Rehashing(s) { RehashLoad(hash, s); }
    ExpandIfNeededKeeps(hash, true, q);
    PreparedLoad(hash, q);
  }

  /** A new entry at the head of its bucket, counted. */
  method PushHt<V>(h: DictHt<V>, index: nat, e: Entry<V>, ghost t: Table<V>) returns (r: DictHt<V>)
    requires t != [] && HtIs(h, t) && index < |t| && e !in Elems(t)
    modifies Slots(h), e`next
    ensures HtIs(r, t[index := [e] + t[index]]) && r.table == h.table
  {
    hide TableIs, Used;
    PushHead(h.table, index, e, t);
    Push(t, index, e);
    r := h.(used := h.used + 1);
  }

  lemma InsertElems<V>(hash: Hash, s: State<V>, e: Entry<V>)
    requires s.t0 != [] && Stage(s)
    ensures Elems(Insert(hash, s, e).t0) + Elems(Insert(hash, s, e).t1) == Elems(s.t0) + Elems(s.t1) + {e}
    ensures Insert(hash, s, e).rehashidx == s.rehashidx && Insert(hash, s, e).iterators == s.iterators
  {
    hide Elems, IndexOf;
    var t := if Rehashing(s) then s.t1 else s.t0;
    IndexInRange(hash, e.key, |t|);
    ElemsPush(t, IndexOf(hash, e.key, |t|), e);
  }

  lemma NotElems<V>(d: Dict<V>, s: State<V>)
    ensures NotInTable(d, s.t0) && NotInTable(d, s.t1)
  {
  }

  lemma BothTables<V>(ht0: DictHt<V>, ht1: DictHt<V>, s: State<V>)
    requires HtIs(ht0, s.t0) && HtIs(ht1, s.t1) && Stage(s) && Rehashing(s)
    ensures ht0.table != null && ht1.table != null && s.t1 != [] && ht0.used == Used(s.t0) && 0 <= s.rehashidx <= |s.t0|
  {
    hide TableIs, Used;
  }

  /** What `dictRehash` has to do, spelt out. */
  lemma RehashSpelt<V>(hash: Hash, s: State<V>)
    requires Inv(hash, s) && Rehashing(s)
    ensures var r := RehashOnce(hash, s);
            if Used(s.t0) == 0 then r == State(s.t1, [], -1, s.iterators)
            else
              var j := FirstFull(s.t0, s.rehashidx);
              && j < |s.t0| && r == State(s.t0[j := []], MoveChain(hash, s.t0[j], s.t1), j + 1, s.iterators)
              && Used(r.t0) + |s.t0[j]| == Used(s.t0) && Used(r.t1) == Used(s.t1) + |s.t0[j]|
  {
    hide Used, Bag, IndexOf, Unique;
    if Used(s.t0) > 0 {
      FirstFullInRange(s);
      var j := FirstFull(s.t0, s.rehashidx);
      BagUpdate(s.t0, j, []);
      MoveChainKeeps(hash, s.t0[j], s.t1);
    }
  }
}
