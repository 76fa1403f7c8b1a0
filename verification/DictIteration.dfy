/** The iterator of utils/dict.c: what is still to be returned, through rehashes, additions and deletions. */
module DictIteration {
  import opened CStrings
  import opened Columns
  import opened DictTables
  import opened DictOps
  import opened Dicts

  function Flat<V>(t: Table<V>): Chain<V> {
    if t == [] then [] else t[0] + Flat(t[1..])
  }

  /** The buckets from `n` on. */
  function Drop<V>(t: Table<V>, n: int): Table<V>
    requires n >= 0
  {
    if n >= |t| then [] else t[n..]
  }

  /** Where an iterator is: table, bucket, and the rest of the chain behind the entry returned last. */
  datatype Place<V> = Place(second: bool, index: int, rest: Chain<V>)

  ghost predicate EndsIn<V>(c: Chain<V>, rest: Chain<V>) {
    |rest| <= |c| && c[|c| - |rest|..] == rest
  }

  function TableOf<V>(s: State<V>, it: Place<V>): Table<V> {
    if it.second then s.t1 else s.t0
  }

  ghost predicate Good<V>(s: State<V>, it: Place<V>) {
    && it.index >= -1 && (it.second ==> it.index >= 0)
    && if 0 <= it.index < |TableOf(s, it)| then EndsIn(TableOf(s, it)[it.index], it.rest) else it.rest == []
  }

  /** The entries that an iterator will return, in order. */
  ghost function Remaining<V>(s: State<V>, it: Place<V>): Chain<V>
    requires Good(s, it)
  {
    it.rest + Flat(Drop(TableOf(s, it), it.index + 1)) + if it.second then [] else Flat(s.t1)
  }

  function Start<V>(): Place<V> {
    Place(false, -1, [])
  }

  lemma {:induction false} FlatIsBag<V>(t: Table<V>)
    ensures multiset(Flat(t)) == Bag(t) && |Flat(t)| == Used(t)
  {
    if t != [] {
      FlatIsBag(t[1..]);
      assert multiset(t[0] + Flat(t[1..])) == multiset(t[0]) + multiset(Flat(t[1..]));
    }
  }

  /** A new iterator will return every entry of both tables, each once. */
  lemma StartsWithAll<V>(hash: Hash, s: State<V>)
    requires Inv(hash, s)
    ensures Good(s, Start()) && multiset(Remaining(s, Start())) == All(s)
    ensures NoRepeats(Remaining(s, Start()))
  {
    hide Bag, Flat, TableOk, Unique;
    var r := Remaining(s, Start());
    FlatIsBag(s.t0);
    FlatIsBag(s.t1);
    assert Drop(s.t0, 0) == s.t0;
    assert r == Flat(s.t0) + Flat(s.t1);
    assert multiset(r) == multiset(Flat(s.t0)) + multiset(Flat(s.t1));
    UniqueList(r);
  }

  lemma UniqueList<V>(r: Chain<V>)
    requires Unique(multiset(r))
    ensures NoRepeats(r)
  {
    forall i, j | 0 <= i < j < |r| ensures r[i] != r[j] {
      if r[i] == r[j] { Twice(r, i, j); }
    }
  }

  // ---- dictNext -------------------------------------------------------------------------------------------

  lemma FlatDrop<V>(t: Table<V>, n: nat)
    requires n < |t|
    ensures Flat(Drop(t, n)) == t[n] + Flat(Drop(t, n + 1))
  {
    assert t[n..][1..] == t[n + 1..];
    assert n + 1 == |t| ==> t[n + 1..] == [];
  }

  /** `dictNext`: the entry it returns, and where it is then. */
  ghost function Next<V>(s: State<V>, it: Place<V>): (r: (Option<Entry<V>>, Place<V>))
    requires Good(s, it) && Stage(s)
    ensures Good(s, r.1) && (r.1.second ==> it.second || Rehashing(s))
    decreases !it.second, |TableOf(s, it)| - it.index + 1, 0
  {
    if it.rest != [] then (Some(it.rest[0]), it.(rest := it.rest[1..]))
    else if it.index + 1 < |TableOf(s, it)| then AtBucket(s, Place(it.second, it.index + 1, []))
    else if Rehashing(s) && !it.second then AtBucket(s, Place(true, 0, []))
    else (None, Place(it.second, it.index + 1, []))
  }

  /** What `dictNext` makes of a bucket it has reached. */
  ghost function AtBucket<V>(s: State<V>, at: Place<V>): (r: (Option<Entry<V>>, Place<V>))
    requires Good(s, at) && Stage(s) && at.rest == [] && 0 <= at.index < |TableOf(s, at)|
    ensures Good(s, r.1) && (r.1.second ==> at.second || Rehashing(s))
    decreases !at.second, |TableOf(s, at)| - at.index + 1, 1
  {
    var c := TableOf(s, at)[at.index];
    if c == [] then Next(s, at) else (Some(c[0]), at.(rest := c[1..]))
  }

  lemma NothingFlat<V>()
    ensures Flat<V>([]) == []
  {
  }

  /** The rest of a chain comes before everything else. */
  lemma RestFirst<V>(s: State<V>, it: Place<V>)
    requires Good(s, it)
    ensures Good(s, it.(rest := [])) && Remaining(s, it) == it.rest + Remaining(s, it.(rest := []))
  {
    hide Flat;
  }

  lemma StepInTable<V>(s: State<V>, it: Place<V>)
    requires Good(s, it) && it.rest == [] && it.index + 1 < |TableOf(s, it)|
    ensures var next := Place(it.second, it.index + 1, []);
            Good(s, next) && Remaining(s, it) == TableOf(s, it)[it.index + 1] + Remaining(s, next)
  {
    hide Flat;
    FlatDrop(TableOf(s, it), it.index + 1);
  }

  lemma StepToSecond<V>(s: State<V>, it: Place<V>)
    requires Good(s, it) && it.rest == [] && it.index + 1 >= |s.t0| && !it.second && s.t1 != []
    ensures Good(s, Place(true, 0, [])) && Remaining(s, it) == s.t1[0] + Remaining(s, Place(true, 0, []))
  {
    hide Flat;
    FlatDrop(s.t1, 0);
    NothingFlat<V>();
    assert Drop(s.t1, 0) == s.t1;
  }

  lemma NothingLeft<V>(s: State<V>, it: Place<V>)
    requires Good(s, it) && it.rest == [] && it.index + 1 >= |TableOf(s, it)| && (it.second || s.t1 == [])
    ensures Remaining(s, it) == []
  {
    hide Flat;
    NothingFlat<V>();
  }

  /** A bucket that was reached: its first entry, if any, and the others. */
  lemma Bucket<V>(s: State<V>, at: Place<V>, c: Chain<V>)
    requires Good(s, at) && at.rest == [] && 0 <= at.index < |TableOf(s, at)| && c == TableOf(s, at)[at.index] && c != []
    ensures Good(s, at.(rest := c[1..])) && c + Remaining(s, at) == [c[0]] + Remaining(s, at.(rest := c[1..]))
  {
    hide Flat;
    RestFirst(s, at.(rest := c[1..]));
    assert c == [c[0]] + c[1..];
    assert ([c[0]] + c[1..]) + Remaining(s, at) == [c[0]] + (c[1..] + Remaining(s, at));
  }

  lemma {:induction false} NextIsFirst<V>(s: State<V>, it: Place<V>)
    requires Good(s, it) && Stage(s)
    ensures var (e, it') := Next(s, it);
            match e
            case None => Remaining(s, it) == [] && Remaining(s, it') == []
            case Some(x) => Remaining(s, it) == [x] + Remaining(s, it')
    decreases !it.second, |TableOf(s, it)| - it.index + 1, 0
  {
    hide Remaining, AtBucket;
    var t := TableOf(s, it);
    if it.rest != [] {
      RestFirst(s, it);
      RestFirst(s, it.(rest := it.rest[1..]));
      assert it.rest == [it.rest[0]] + it.rest[1..];
      assert [it.rest[0]] + it.rest[1..] + Remaining(s, it.(rest := [])) == [it.rest[0]] + (it.rest[1..] + Remaining(s, it.(rest := [])));
    } else if it.index + 1 < |t| {
      StepInTable(s, it);
      InBucket(s, Place(it.second, it.index + 1, []), t[it.index + 1]);
    } else if Rehashing(s) && !it.second {
      StepToSecond(s, it);
      InBucket(s, Place(true, 0, []), s.t1[0]);
    } else {
      NothingLeft(s, it);
      NothingLeft(s, Place(it.second, it.index + 1, []));
    }
  }

  /** Having reached a bucket, `dictNext` returns its first entry or goes on. */
  lemma InBucket<V>(s: State<V>, at: Place<V>, c: Chain<V>)
    requires Good(s, at) && Stage(s) && at.rest == [] && 0 <= at.index < |TableOf(s, at)| && c == TableOf(s, at)[at.index]
    ensures var (e, it') := AtBucket(s, at);
            match e
            case None => c + Remaining(s, at) == [] && Remaining(s, it') == []
            case Some(x) => c + Remaining(s, at) == [x] + Remaining(s, it')
    decreases !at.second, |TableOf(s, at)| - at.index + 1, 1
  {
    hide Remaining, Next;
    if c == [] {
      NextIsFirst(s, at);
      assert [] + Remaining(s, at) == Remaining(s, at);
    } else {
      Bucket(s, at, c);
    }
  }

  // ---- what the caller may do in between ------------------------------------------------------------------------

  /** `r'` is `r` with `e` put in somewhere, or as it was. */
  ghost predicate Plus<V>(r: Chain<V>, e: Entry<V>, r': Chain<V>) {
    r' == r || exists k :: 0 <= k <= |r| && r' == r[..k] + [e] + r[k..]
  }

  lemma PlusAround<V>(a: Chain<V>, r: Chain<V>, b: Chain<V>, e: Entry<V>, r': Chain<V>)
    requires Plus(r, e, r')
    ensures Plus(a + r + b, e, a + r' + b)
  {
    if r' != r {
      var k :| 0 <= k <= |r| && r' == r[..k] + [e] + r[k..];
      var w := a + r + b;
      assert w[..|a| + k] == a + r[..k] && w[|a| + k..] == r[k..] + b;
      assert a + r' + b == w[..|a| + k] + [e] + w[|a| + k..];
    }
  }

  lemma {:induction false} FlatPush<V>(t: Table<V>, h: nat, e: Entry<V>)
    requires h < |t|
    ensures Plus(Flat(t), e, Flat(t[h := [e] + t[h]]))
  {
    var t' := t[h := [e] + t[h]];
    if h == 0 {
      assert t'[1..] == t[1..];
      assert Flat(t') == Flat(t)[..0] + [e] + Flat(t)[0..];
    } else {
      assert t'[1..] == t[1..][h - 1 := [e] + t[1..][h - 1]];
      FlatPush(t[1..], h - 1, e);
      PlusAround(t[0], Flat(t[1..]), [], e, Flat(t'[1..]));
      assert t[0] + Flat(t[1..]) + [] == Flat(t) && t[0] + Flat(t'[1..]) + [] == Flat(t');
    }
  }

  lemma DropPush<V>(t: Table<V>, h: nat, e: Entry<V>, n: nat)
    requires h < |t|
    ensures Plus(Flat(Drop(t, n)), e, Flat(Drop(t[h := [e] + t[h]], n)))
  {
    hide Flat;
    var t' := t[h := [e] + t[h]];
    if n <= h {
      assert t'[n..] == t[n..][h - n := [e] + t[n..][h - n]];
      FlatPush(t[n..], h - n, e);
    } else if n < |t| {
      assert t'[n..] == t[n..];
    }
  }

  /** An added entry may come up later; nothing else changes. */
  lemma InsertRemaining<V>(hash: Hash, s: State<V>, it: Place<V>, e: Entry<V>)
    requires Stage(s) && s.t0 != [] && Good(s, it) && (it.second ==> Rehashing(s))
    ensures Stage(Insert(hash, s, e)) && Good(Insert(hash, s, e), it) && Plus(Remaining(s, it), e, Remaining(Insert(hash, s, e), it))
  {
    hide Flat, IndexOf, Plus;
    var s' := Insert(hash, s, e);
    var t := if Rehashing(s) then s.t1 else s.t0;
    IndexInRange(hash, e.key, |t|);
    var h := IndexOf(hash, e.key, |t|);
    HeadGrows(t, h, e, it);
    var head, tail := Flat(Drop(TableOf(s, it), it.index + 1)), if it.second then [] else Flat(s.t1);
    if it.second || !Rehashing(s) {
      DropPush(t, h, e, it.index + 1);
      PlusAround(it.rest, head, tail, e, Flat(Drop(TableOf(s', it), it.index + 1)));
    } else {
      FlatPush(t, h, e);
      PlusAround(it.rest + head, tail, [], e, Flat(s'.t1));
      assert it.rest + head + tail + [] == it.rest + head + tail;
      assert it.rest + head + Flat(s'.t1) + [] == it.rest + head + Flat(s'.t1);
    }
  }

  lemma HeadGrows<V>(t: Table<V>, h: nat, e: Entry<V>, it: Place<V>)
    requires h < |t|
    ensures 0 <= it.index < |t| && EndsIn(t[it.index], it.rest) ==> EndsIn(t[h := [e] + t[h]][it.index], it.rest)
  {
  }

  lemma {:induction false} FlatEmpty<V>(t: Table<V>)
    requires forall i :: 0 <= i < |t| ==> t[i] == []
    ensures Flat(t) == []
  {
    if t != [] { FlatEmpty(t[1..]); }
  }

  /** An expansion changes nothing for an iterator. */
  lemma ExpandRemaining<V>(canResize: bool, s: State<V>, it: Place<V>)
    requires Stage(s) && Good(s, it) && (it.second ==> Rehashing(s))
    ensures var s' := ExpandIfNeeded(canResize, s); Good(s', it) && Remaining(s', it) == Remaining(s, it) && (it.second ==> Rehashing(s'))
  {
    hide Flat, Used, NextPower;
    var s' := ExpandIfNeeded(canResize, s);
    if s' != s {
      FlatEmpty(s'.t1);
      NothingFlat<V>();
      if s.t0 == [] {
        FlatEmpty(Drop(s'.t0, it.index + 1));
        FlatEmpty(s'.t0);
      }
    }
  }

  lemma {:induction false} InFlat<V>(t: Table<V>, h: nat, e: Entry<V>)
    requires h < |t| && e in t[h]
    ensures e in Flat(t)
  {
    if h > 0 { InFlat(t[1..], h - 1, e); }
  }

  lemma InDrop<V>(t: Table<V>, n: nat, h: nat, e: Entry<V>)
    requires n <= h < |t| && e in t[h]
    ensures e in Flat(Drop(t, n))
  {
    assert t[n..][h - n] == t[h];
    InFlat(t[n..], h - n, e);
  }

  /** Deleting an entry that will not come up again changes nothing for an iterator. */
  lemma RemoveRemaining<V>(hash: Hash, s: State<V>, it: Place<V>, key: CStr)
    requires Stage(s) && s.t0 != [] && Good(s, it) && (it.second ==> Rehashing(s)) && Remove(hash, s, key).Some?
    requires Search(hash, s, key).Some? && Search(hash, s, key).value !in Remaining(s, it)
    ensures var s' := Remove(hash, s, key).value; Stage(s') && Good(s', it) && Remaining(s', it) == Remaining(s, it)
  {
    hide Flat, IndexOf, EndsIn, Drop, And;
    var first := SearchTable(hash, s.t0, key).Some?;
    var t := if first then s.t0 else s.t1;
    IndexInRange(hash, key, |t|);
    var h := IndexOf(hash, key, |t|);
    var j := Locate(t[h], key);
    if first == it.second {
      if !it.second { InFlat(t, h, t[h][j]); }
    } else {
      CutSame(t, h, j, it.index, it.rest, Remaining(s, it));
    }
  }

  lemma InSuffix<V>(c: Chain<V>, rest: Chain<V>, j: nat)
    requires EndsIn(c, rest) && |c| - |rest| <= j < |c|
    ensures c[j] in rest
  {
    assert c[|c| - |rest|..][j - (|c| - |rest|)] == c[j];
  }

  lemma CutSame<V>(t: Table<V>, h: nat, j: nat, index: int, rest: Chain<V>, r: Chain<V>)
    requires h < |t| && j < |t[h]| && index >= -1 && t[h][j] !in r
    requires if 0 <= index < |t| then EndsIn(t[index], rest) else rest == []
    requires (forall x :: x in rest ==> x in r) && forall x :: x in Flat(Drop(t, index + 1)) ==> x in r
    ensures var t' := t[h := t[h][..j] + t[h][j + 1..]];
            && Drop(t', index + 1) == Drop(t, index + 1)
            && (0 <= index < |t| ==> EndsIn(t'[index], rest))
  {
    hide Flat;
    var c := t[h];
    if h > index {
      InDrop(t, index + 1, h, c[j]);
    } else if h == index {
      if j >= |c| - |rest| {
        InSuffix(c, rest, j);
      }
      var c' := c[..j] + c[j + 1..];
      assert c'[|c'| - |rest|..] == c[|c| - |rest|..];
    }
  }

  // ---- every use of a safe iterator --------------------------------------------------------------------------------

  /** A dictionary under a safe iterator: where it is, what it has returned, and what it returned last. */
  datatype Walk<V> = Walk(s: State<V>, it: Place<V>, seen: Chain<V>)

  datatype Act<V> = Advance | Put(e: Entry<V>) | RemoveLast

  ghost predicate WalkInv<V>(hash: Hash, w: Walk<V>, base: set<Entry<V>>) {
    && Inv(hash, w.s) && w.s.iterators > 0 && Good(w.s, w.it) && (w.it.second ==> Rehashing(w.s))
    && NoRepeats(w.seen + Remaining(w.s, w.it))
    && (forall e :: e in Remaining(w.s, w.it) ==> e in All(w.s))
    && (forall e :: e in base && e in All(w.s) ==> e in w.seen || e in Remaining(w.s, w.it))
  }

  /** What the caller may do: go on; add an entry that was never there; or delete the entry returned last. */
  ghost predicate May<V>(hash: Hash, canResize: bool, w: Walk<V>, base: set<Entry<V>>, a: Act<V>) {
    Inv(hash, w.s) && Good(w.s, w.it) &&
    match a
    case Advance => true
    case Put(e) => Doubles(w.s) && e !in All(w.s) && e !in w.seen && e !in base && forall f :: f in All(w.s) ==> f.key != e.key
    case RemoveLast => w.seen != [] && w.seen[|w.seen| - 1] in All(w.s) && w.s.t0 != []
  }

  ghost function Do<V>(hash: Hash, canResize: bool, w: Walk<V>, base: set<Entry<V>>, a: Act<V>): Walk<V>
    requires May(hash, canResize, w, base, a)
  {
    match a
    case Advance =>
      var (e, it') := Next(w.s, w.it);
      Walk(w.s, it', w.seen + if e.Some? then [e.value] else [])
    case Put(e) =>
      ExpandIfNeededKeeps(hash, canResize, w.s);
      Walk(Insert(hash, ExpandIfNeeded(canResize, w.s), e), w.it, w.seen)
    case RemoveLast =>
      var r := Remove(hash, w.s, w.seen[|w.seen| - 1].key);
      Walk(if r.Some? then r.value else w.s, w.it, w.seen)
  }

  lemma AdvanceKeeps<V>(hash: Hash, w: Walk<V>, base: set<Entry<V>>)
    requires WalkInv(hash, w, base)
    ensures WalkInv(hash, Do(hash, true, w, base, Advance), base)
  {
    hide Inv, Remaining, Next, Good, Bag;
    StageOf(hash, w.s);
    NextIsFirst(w.s, w.it);
    var (e, it') := Next(w.s, w.it);
    if e.Some? {
      assert w.seen + ([e.value] + Remaining(w.s, it')) == (w.seen + [e.value]) + Remaining(w.s, it');
      assert Remaining(w.s, w.it)[0] == e.value;
    } else {
      assert w.seen + [] == w.seen;
    }
  }

  lemma PlusMembers<V>(seen: Chain<V>, r: Chain<V>, e: Entry<V>, r': Chain<V>)
    requires Plus(r, e, r') && NoRepeats(seen + r) && e !in seen && e !in r
    ensures NoRepeats(seen + r') && forall x :: x in r' ==> x in r || x == e
    ensures forall x :: x in r ==> x in r'
  {
    if r' != r {
      var k :| 0 <= k <= |r| && r' == r[..k] + [e] + r[k..];
      var a, b := seen + r, seen + r';
      var n := |seen| + k;
      assert b[n] == e && forall i :: 0 <= i < |b| ==> b[i] == if i < n then a[i] else if i == n then e else a[i - 1];
      assert forall i :: 0 <= i < |a| ==> a[i] in a && a[i] != e by {
        forall i | 0 <= i < |a| ensures a[i] != e {
          if i >= |seen| { assert a[i] == r[i - |seen|]; }
        }
      }
      forall i, j | 0 <= i < j < |b| ensures b[i] != b[j] {
        assert b[i] == if i < n then a[i] else if i == n then e else a[i - 1];
        assert b[j] == if j < n then a[j] else if j == n then e else a[j - 1];
      }
      forall x | x in r ensures x in r' {
        var i :| 0 <= i < |r| && r[i] == x;
        assert r'[if i < k then i else i + 1] == x;
      }
    }
  }

  lemma PutKeeps<V>(hash: Hash, canResize: bool, w: Walk<V>, base: set<Entry<V>>, e: Entry<V>)
    requires WalkInv(hash, w, base) && May(hash, canResize, w, base, Put(e))
    ensures WalkInv(hash, Do(hash, canResize, w, base, Put(e)), base)
  {
    hide Inv, Remaining, Good, Bag, Insert, ExpandIfNeeded, Plus, Doubles, NoRepeats;
    StageOf(hash, w.s);
    ExpandIfNeededKeeps(hash, canResize, w.s);
    ExpandRemaining(canResize, w.s, w.it);
    var p := ExpandIfNeeded(canResize, w.s);
    SameIterators(canResize, w.s);
    StageOf(hash, p);
    InsertKeeps(hash, p, e);
    InsertRemaining(hash, p, w.it, e);
    SameStage(hash, p, e);
    PlusMembers(w.seen, Remaining(w.s, w.it), e, Remaining(Insert(hash, p, e), w.it));
  }

  lemma SameIterators<V>(canResize: bool, s: State<V>)
    ensures ExpandIfNeeded(canResize, s).iterators == s.iterators
  {
    hide NextPower, Used;
  }

  lemma SameStage<V>(hash: Hash, p: State<V>, e: Entry<V>)
    requires Stage(p) && p.t0 != []
    ensures Insert(hash, p, e).iterators == p.iterators && Insert(hash, p, e).rehashidx == p.rehashidx
  {
  }

  lemma RemoveLastKeeps<V>(hash: Hash, canResize: bool, w: Walk<V>, base: set<Entry<V>>)
    requires WalkInv(hash, w, base) && May(hash, canResize, w, base, RemoveLast)
    ensures WalkInv(hash, Do(hash, canResize, w, base, RemoveLast), base)
    ensures w.seen[|w.seen| - 1] !in All(Do(hash, canResize, w, base, RemoveLast).s)
  {
    hide Remaining, Good, Bag, TableOk, Remove, Search;
    var n := |w.seen| - 1;
    var e := w.seen[n];
    StageOf(hash, w.s);
    RemoveKeeps(hash, w.s, e.key);
    SearchIs(hash, w.s, e.key);
    assert Search(hash, w.s, e.key) == Some(e);
    forall i | 0 <= i < |Remaining(w.s, w.it)| ensures Remaining(w.s, w.it)[i] != e {
      var all := w.seen + Remaining(w.s, w.it);
      assert all[n] == e && all[|w.seen| + i] == Remaining(w.s, w.it)[i];
    }
    RemoveRemaining(hash, w.s, w.it, e.key);
    var s' := Remove(hash, w.s, e.key).value;
    RemoveSameStage(hash, w.s, e.key);
    assert All(w.s)[e] == 1;
    assert forall f :: f in Remaining(w.s, w.it) ==> f in All(s') by {
      forall f | f in Remaining(w.s, w.it) ensures f in All(s') {
        assert f != e && All(w.s)[f] == All(s')[f];
      }
    }
    forall f | f in All(s') ensures f in All(w.s) {
      assert All(w.s)[f] >= All(s')[f];
    }
  }

  lemma RemoveSameStage<V>(hash: Hash, s: State<V>, key: CStr)
    requires s.t0 != [] && Stage(s) && Remove(hash, s, key).Some?
    ensures Remove(hash, s, key).value.iterators == s.iterators && Remove(hash, s, key).value.rehashidx == s.rehashidx
  {
    hide SearchTable, Cut;
  }

  /** Whatever the caller did in between, an iterator that has nothing more to return has returned every
      entry that was there from the start and still is, exactly once. */
  lemma FinishedWalk<V>(hash: Hash, w: Walk<V>, base: set<Entry<V>>)
    requires WalkInv(hash, w, base) && Next(w.s, w.it).0 == None
    ensures forall e :: e in base && e in All(w.s) ==> e in w.seen
    ensures NoRepeats(w.seen)
  {
    hide Inv, Remaining, Next, Good, Bag;
    StageOf(hash, w.s);
    NextIsFirst(w.s, w.it);
    assert w.seen + [] == w.seen;
  }

  /** It starts so. */
  lemma WalkStarts<V>(hash: Hash, s: State<V>)
    requires Inv(hash, s) && s.iterators > 0
    ensures WalkInv(hash, Walk(s, Start(), []), SetOf(All(s)))
  {
    hide Inv, Remaining, Bag;
    StartsWithAll(hash, s);
    var r := Remaining(s, Start());
    assert [] + r == r;
    assert forall e :: e in r <==> e in multiset(r);
  }

  /** A walk from its start; None when the caller did something it may not do. */
  ghost function Walked<V>(hash: Hash, canResize: bool, s: State<V>, acts: seq<Act<V>>): Option<Walk<V>>
  {
    if acts == [] then Some(Walk(s, Start(), []))
    else
      match Walked(hash, canResize, s, acts[..|acts| - 1])
      case None => None
      case Some(w) =>
        var a := acts[|acts| - 1];
        if May(hash, canResize, w, SetOf(All(s)), a) then Some(Do(hash, canResize, w, SetOf(All(s)), a)) else None
  }

  /** In every use of a safe iterator, nothing is returned twice; and when it has nothing more to return,
      it has returned every entry that was there from the start and still is. */
  lemma {:induction false} EveryWalk<V>(hash: Hash, canResize: bool, s: State<V>, acts: seq<Act<V>>, w: Walk<V>)
    requires Inv(hash, s) && s.iterators > 0 && Walked(hash, canResize, s, acts) == Some(w)
    ensures WalkInv(hash, w, SetOf(All(s))) && NoRepeats(w.seen)
    ensures Stage(w.s) && (Next(w.s, w.it).0 == None ==> forall e :: e in SetOf(All(s)) && e in All(w.s) ==> e in w.seen)
  {
    hide Inv, Remaining, Next, Bag, Do, May;
    var base := SetOf(All(s));
    if acts == [] {
      WalkStarts(hash, s);
    } else {
      var v := Walked(hash, canResize, s, acts[..|acts| - 1]).value;
      EveryWalk(hash, canResize, s, acts[..|acts| - 1], v);
      match acts[|acts| - 1]
      case Advance => { AdvanceKeeps(hash, v, base); SameAdvance(hash, canResize, v, base); }
      case Put(e) => PutKeeps(hash, canResize, v, base, e);
      case RemoveLast => RemoveLastKeeps(hash, canResize, v, base);
    }
    StageOf(hash, w.s);
    SeenOnce(w.seen, Remaining(w.s, w.it));
    if Next(w.s, w.it).0 == None { FinishedWalk(hash, w, base); }
  }

  lemma SameAdvance<V>(hash: Hash, canResize: bool, w: Walk<V>, base: set<Entry<V>>)
    requires WalkInv(hash, w, base)
    ensures May(hash, canResize, w, base, Advance) && Do(hash, canResize, w, base, Advance) == Do(hash, true, w, base, Advance)
  {
    hide Remaining, Next, Bag;
  }

  lemma SeenOnce<V>(seen: Chain<V>, r: Chain<V>)
    requires NoRepeats(seen + r)
    ensures NoRepeats(seen)
  {
    assert forall i :: 0 <= i < |seen| ==> (seen + r)[i] == seen[i];
  }

  /** What repeated calls of `dictNext` return when nothing else happens. */
  ghost function Visit<V>(s: State<V>, it: Place<V>): Chain<V>
    requires Good(s, it) && Stage(s)
    decreases |Remaining(s, it)|
  {
    NextIsFirst(s, it);
    var (e, it') := Next(s, it);
    if e.None? then [] else [e.value] + Visit(s, it')
  }

  lemma {:induction false} VisitIsRemaining<V>(s: State<V>, it: Place<V>)
    requires Good(s, it) && Stage(s)
    ensures Visit(s, it) == Remaining(s, it)
    decreases |Remaining(s, it)|
  {
    hide Remaining, Next, Good, Stage;
    NextIsFirst(s, it);
    if Next(s, it).0.Some? { VisitIsRemaining(s, Next(s, it).1); }
  }

  /** An iterator left alone returns the entries of both tables, each exactly once, whatever the stage of the rehash. */
  lemma VisitsAllOnce<V>(hash: Hash, s: State<V>)
    requires Inv(hash, s)
    ensures Stage(s) && Good(s, Start())
    ensures multiset(Visit(s, Start())) == All(s) && NoRepeats(Visit(s, Start()))
  {
    hide Inv, Remaining, Visit, Bag;
    StageOf(hash, s);
    StartsWithAll(hash, s);
    VisitIsRemaining(s, Start());
  }

  // ---- the iterator object --------------------------------------------------------------------------------------------

  class DictIterator<V> {
    const d: Dict<V>
    const safe: bool
    var table: nat
    var index: int
    var entry: Entry?<V>
    var nextEntry: Entry?<V>
    ghost var it: Place<V>

    /** `dictGetIterator` and `dictGetSafeIterator`. */
    constructor (d: Dict<V>, safe: bool)
      requires d.Valid()
      ensures Valid() && this.d == d && this.safe == safe && it == Start()
    {
      hide Inv, HtIs, MapIs, Good, Elems, Dict<V>.Valid, Chained;
      GoodStart(d.s);
      this.d, this.safe := d, safe;
      table, index, entry, nextEntry, it := 0, -1, null, null, Start();
      new;
      assert (this as object) !in d.Repr();
      assert d.Valid();
      assert Members(it.rest) == {};
    }

    ghost predicate Valid()
      reads this, d, d.Repr()
    {
      && d.Valid() && Good(d.s, it) && (it.second ==> Rehashing(d.s)) && Members(it.rest) <= d.entries
      && table == (if it.second then 1 else 0) && index == it.index && (index == -1 ==> entry == null)
      && if entry == null then it.rest == [] else Chained(nextEntry, it.rest)
    }

    /** `dictNext`: the first of what remains; a safe iterator announces itself when it sets out. */
    method DictNext() returns (e: Entry?<V>)
      requires Valid() && this !in d.Repr()
      modifies this, d`iterators, d`s
      ensures Valid() && Stage(d.s) && Good(d.s, old(it)) && d.s == old(d.s).(iterators := d.iterators)
      ensures d.iterators == old(d.iterators) + if safe && old(index) == -1 && old(table) == 0 then 1 else 0
      ensures it == Next(d.s, old(it)).1 && e == match Next(d.s, old(it)).0 case None => null case Some(x) => x
    {
      hide Inv, HtIs, MapIs, Next, Chained, Good;
      if entry == null && safe && index == -1 && table == 0 {
        Announce();
      }
      StageOf(d.hash, d.s);
      e := null;
      var more := true;
      ghost var target := Next(d.s, it);
      while more
        invariant Valid() && this !in d.Repr() && d.s == old(d.s).(iterators := d.iterators) && Stage(d.s)
        invariant d.iterators == old(d.iterators) + if safe && old(index) == -1 && old(table) == 0 then 1 else 0
        invariant more ==> Next(d.s, it) == target && e == null
        invariant !more ==> it == target.1 && e == match target.0 case None => null case Some(x) => x
        decreases more, !it.second, |TableOf(d.s, it)| - it.index + 1, entry != null
      {
        more, e := Round();
      }
    }

    /** `iter->d->iterators++`. */
    method Announce()
      requires Valid() && this !in d.Repr()
      modifies d`iterators, d`s
      ensures Valid() && d.s == old(d.s).(iterators := d.iterators) && d.iterators == old(d.iterators) + 1
    {
      hide HtIs, MapIs, TableOk, Unique, Chained, EndsIn;
      assert NotAmong(d, d.entries) && d !in Slots(d.ht0) && d !in Slots(d.ht1);
      NotElems(d, d.s);
      d.iterators := d.iterators + 1;
      d.s := d.s.(iterators := d.iterators);
    }

    /** One round of the loop in `dictNext`. */
    method Round() returns (more: bool, e: Entry?<V>)
      requires Valid() && this !in d.Repr() && Stage(d.s)
      modifies this
      ensures Valid() && Good(d.s, old(it))
      ensures more ==> e == null && Next(d.s, it) == Next(d.s, old(it))
      ensures more ==> if old(entry) != null then entry == null && it == old(it)
                       else (it.second == old(it).second && old(it).index < it.index <= |TableOf(d.s, it)|) || (it.second && !old(it).second)
      ensures !more ==> it == Next(d.s, old(it)).1 && e == match Next(d.s, old(it)).0 case None => null case Some(x) => x
    {
      hide Inv, HtIs, MapIs, Chained, AtBucket;
      if entry == null {
        more, e := NextBucket();
      } else {
        more, e := TakeNext();
      }
    }

    /** `iter->entry = iter->nextEntry`, and what follows. */
    method TakeNext() returns (more: bool, e: Entry?<V>)
      requires Valid() && this !in d.Repr() && Stage(d.s) && entry != null
      modifies `entry, `nextEntry, `it
      ensures Valid() && more == (old(it).rest == [])
      ensures if more then e == null && entry == null && it == old(it) else e == old(it).rest[0] && it == old(it).(rest := old(it).rest[1..])
    {
      hide Inv, HtIs, MapIs, Chained, Good;
      GoodTail(d.s, it);
      entry, e := nextEntry, nextEntry;
      more := nextEntry == null;
      if nextEntry == null {
        IsNull(nextEntry, it.rest);
      } else {
        NotNull(nextEntry, it.rest);
        Linked(nextEntry, it.rest);
        assert NotAmong(this, d.entries);
        nextEntry := nextEntry.next;
        it := it.(rest := it.rest[1..]);
      }
    }

    /** The part of a round that goes to the next bucket, or to the second table. */
    method NextBucket() returns (more: bool, e: Entry?<V>)
      requires Valid() && this !in d.Repr() && Stage(d.s) && entry == null
      modifies this
      ensures Valid() && Good(d.s, old(it))
      ensures more ==> e == null && Next(d.s, it) == Next(d.s, old(it))
      ensures more ==> (it.second == old(it).second && old(it).index < it.index <= |TableOf(d.s, it)|) || (it.second && !old(it).second)
      ensures !more ==> it == Next(d.s, old(it)).1 && e == match Next(d.s, old(it)).0 case None => null case Some(x) => x
    {
      hide Inv, HtIs, MapIs, Chained, Next, Good, AtBucket;
      NextGoes(d.s, it);
      var found := GoToNext();
      if !found {
        return false, null;
      }
      more, e := EnterBucket();
    }

    /** `iter->index++`, and the change of tables. */
    method GoToNext() returns (found: bool)
      requires Valid() && this !in d.Repr() && Stage(d.s) && entry == null
      modifies `table, `index, `it
      ensures Valid() && it == Onward(d.s, old(it)) && found == (it.index < |TableOf(d.s, it)|) && it.index >= 0
    {
      hide Inv, HtIs, MapIs, Chained;
      Sizes(d.ht0, d.s.t0);
      Sizes(d.ht1, d.s.t1);
      var ht := if table == 0 then d.ht0 else d.ht1;
      index := index + 1;
      if index >= ht.size {
        if d.rehashidx != -1 && table == 0 {
          table, index := 1, 0;
        }
      }
      it := Onward(d.s, it);
      var size := if table == 0 then d.ht0.size else d.ht1.size;
      found := index < size;
    }

    /** `iter->entry = ht->table[iter->index]`, and what follows when there is one. */
    method EnterBucket() returns (more: bool, e: Entry?<V>)
      requires Valid() && this !in d.Repr() && Stage(d.s) && entry == null && 0 <= it.index < |TableOf(d.s, it)|
      modifies `entry, `nextEntry, `it
      ensures Valid() && Good(d.s, old(it)) && (more ==> e == null && it == old(it))
      ensures more == (TableOf(d.s, old(it))[old(it).index] == [])
      ensures !more ==> it == AtBucket(d.s, old(it)).1 && e != null && AtBucket(d.s, old(it)).0 == Some(e)
    {
      hide Inv, HtIs, MapIs, Chained;
      assert this !in Slots(d.ht0) && this !in Slots(d.ht1) && NotAmong(this, d.entries);
      ghost var c := TableOf(d.s, it)[it.index];
      BucketMembers(TableOf(d.s, it), it.index);
      var first := Head(if table == 0 then d.ht0 else d.ht1, index, TableOf(d.s, it));
      e := null;
      more := first == null;
      if first != null {
        NotNull(first, c);
        Linked(first, c);
        entry, e := first, first;
        nextEntry := first.next;
        it := it.(rest := c[1..]);
      } else {
        IsNull(first, c);
      }
    }
  }

  lemma GoodTail<V>(s: State<V>, it: Place<V>)
    requires Good(s, it)
    ensures it.rest != [] ==> it.index >= 0 && Good(s, it.(rest := it.rest[1..])) && Members(it.rest[1..]) <= Members(it.rest)
  {
  }

  lemma GoodStart<V>(s: State<V>)
    ensures Good(s, Start())
  {
  }

  lemma BucketMembers<V>(t: Table<V>, i: nat)
    requires i < |t|
    ensures Members(t[i]) <= Elems(t) && (t[i] != [] ==> Members(t[i][1..]) <= Elems(t))
  {
    assert forall e :: e in t[i] ==> e in Elems(t);
  }

  /** Where an iterator goes when a chain is at its end. */
  function Onward<V>(s: State<V>, it: Place<V>): Place<V> {
    if it.index + 1 >= |TableOf(s, it)| && Rehashing(s) && !it.second then Place(true, 0, []) else Place(it.second, it.index + 1, [])
  }

  lemma NextGoes<V>(s: State<V>, it: Place<V>)
    requires Good(s, it) && Stage(s) && it.rest == []
    ensures var at := Onward(s, it);
            && Good(s, at)
            && Next(s, it) == (if at.index < |TableOf(s, at)| then AtBucket(s, at) else (None, at))
            && ((at.second == it.second && it.index < at.index) || (at.second && !it.second))
    ensures var at := Onward(s, it); at.index < |TableOf(s, at)| && TableOf(s, at)[at.index] == [] ==> AtBucket(s, at) == Next(s, at)
  {
  }

  /** `ht->table[index]`. */
  method Head<V>(h: DictHt<V>, index: nat, ghost t: Table<V>) returns (first: Entry?<V>)
    requires HtIs(h, t) && index < |t|
    ensures Chained(first, t[index])
  {
    hide Chained;
    first := h.table[index];
  }
}
