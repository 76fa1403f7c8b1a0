/** The two tables of a dictionary (utils/dict.c) as chains of entries: what each operation makes of them,
    and what every operation keeps. */
module DictTables {
  import opened CStrings
  import opened Columns
  import opened Bits

  class Entry<V> {
    const key: CStr
    var val: V
    var next: Entry?<V>

    constructor (key: CStr, val: V, next: Entry?<V>)
      ensures this.key == key && this.val == val && this.next == next
    {
      this.key, this.val, this.next := key, val, next;
    }
  }

  type Chain<V> = seq<Entry<V>>
  type Table<V> = seq<seq<Entry<V>>>
  type Hash = CStr -> uint32

  const DICT_HT_INITIAL_SIZE: nat := 4
  const LONG_MAX: nat := 0x7FFF_FFFF_FFFF_FFFF
  const FORCE_RESIZE_RATIO: nat := 5

  // ---- masks ------------------------------------------------------------------------------------------

  /** The bits that two numbers share. */
  function And(a: nat, b: nat): nat
    decreases a
  {
    if a == 0 then 0 else (if a % 2 == 1 && b % 2 == 1 then 1 else 0) + 2 * And(a / 2, b / 2)
  }

  lemma {:induction false} AndBelow(a: nat, b: nat)
    ensures And(a, b) <= b
    decreases a
  {
    if a != 0 { AndBelow(a / 2, b / 2); }
  }

  ghost predicate Power(n: nat) {
    exists k: nat :: n == Pow2(k)
  }

  lemma AndStep(a: nat, m: nat)
    requires a > 0 && m > 0
    ensures And(a, 2 * m - 1) == a % 2 + 2 * And(a / 2, m - 1)
  {
    assert (2 * m - 1) / 2 == m - 1 && (2 * m - 1) % 2 == 1;
  }

  /** A mask of ones leaves the remainder. */
  lemma {:induction false} LowBitsAre(a: nat, k: nat, m: nat)
    requires m == Pow2(k)
    ensures m > 0 && And(a, m - 1) == a % m
    decreases k
  {
    hide And;
    Pow2Positive(k);
    if k == 0 {
      AndBelow(a, 0);
    } else {
      var half := Pow2(k - 1);
      assert m == 2 * half;
      hide Pow2;
      LowBitsAre(a / 2, k - 1, half);
      if a > 0 { AndStep(a, half); } else { AndNothing(m - 1); }
      Doubled(a, half);
    }
  }

  lemma AndNothing(b: nat)
    ensures And(0, b) == 0
  {
  }

  /** `dictHashKey(d, key) & sizemask` in a table of `size` buckets. */
  function IndexOf(hash: Hash, key: CStr, size: nat): nat
    requires size > 0
  {
    And(hash(key), size - 1)
  }

  lemma IndexInRange(hash: Hash, key: CStr, size: nat)
    requires size > 0
    ensures IndexOf(hash, key, size) < size
  {
    AndBelow(hash(key), size - 1);
  }

  /** In a table whose size is a power of two, as all are, the mask leaves the remainder of the hash. */
  lemma IndexIsRemainder(hash: Hash, key: CStr, size: nat)
    requires Power(size)
    ensures size > 0 && IndexOf(hash, key, size) == hash(key) % size
  {
    var k: nat :| size == Pow2(k);
    LowBitsAre(hash(key), k, size);
  }

  /** `_dictNextPower` from the candidate `i` on. */
  function NextPowerFrom(i: nat, size: nat): nat
    requires i > 0
    decreases size - i
  {
    if i >= size then i else NextPowerFrom(2 * i, size)
  }

  function NextPower(size: nat): nat {
    if size >= LONG_MAX then LONG_MAX else NextPowerFrom(DICT_HT_INITIAL_SIZE, size)
  }

  lemma {:induction false} NextPowerFromIs(i: nat, size: nat)
    requires i > 0 && Power(i)
    ensures Power(NextPowerFrom(i, size)) && NextPowerFrom(i, size) >= size && NextPowerFrom(i, size) >= i
    decreases size - i
  {
    if i < size {
      var k: nat :| i == Pow2(k);
      assert 2 * i == Pow2(k + 1);
      NextPowerFromIs(2 * i, size);
    }
  }

  lemma {:induction false} NextPowerFromBelow(i: nat, size: nat)
    requires 0 < i && (i < 2 * size || i == 4)
    ensures (NextPowerFrom(i, size) < 2 * size || NextPowerFrom(i, size) == 4) && (i >= size ==> NextPowerFrom(i, size) == i)
    decreases size - i
  {
    if i < size { NextPowerFromBelow(2 * i, size); }
  }

  lemma PowersEven(k: nat)
    ensures Pow2(k) == 1 || Pow2(k) % 2 == 0
  {
  }

  /** Table sizes are powers of two, exactly below the largest long: the least that is at or above 4 and the size. */
  lemma NextPowerIs(size: nat)
    ensures Power(NextPower(size)) <==> size < LONG_MAX
    ensures size < LONG_MAX ==> NextPower(size) >= size && NextPower(size) >= 4 && (NextPower(size) < 2 * size || NextPower(size) == 4)
    ensures size >= LONG_MAX ==> NextPower(size) == LONG_MAX
  {
    if size < LONG_MAX {
      NextPowerFromBelow(DICT_HT_INITIAL_SIZE, size);
      assert DICT_HT_INITIAL_SIZE == Pow2(2);
      NextPowerFromIs(DICT_HT_INITIAL_SIZE, size);
    } else if Power(LONG_MAX) {
      var k: nat :| LONG_MAX == Pow2(k);
      PowersEven(k);
    }
  }

  // ---- tables as bags of entries ------------------------------------------------------------------------

  ghost function Bag<V>(t: Table<V>): multiset<Entry<V>> {
    if t == [] then multiset{} else multiset(t[0]) + Bag(t[1..])
  }

  function Used<V>(t: Table<V>): nat {
    if t == [] then 0 else |t[0]| + Used(t[1..])
  }

  /** The number of buckets that are not empty. */
  function Full<V>(t: Table<V>): nat {
    if t == [] then 0 else (if t[0] != [] then 1 else 0) + Full(t[1..])
  }

  lemma SumsMatch<T>(a: multiset<T>, b: multiset<T>, m: multiset<T>, b': multiset<T>, c: multiset<T>)
    requires b + m == b' + c
    ensures a + b + m == a + b' + c
  {
    assert a + b + m == a + (b + m);
    assert a + b' + c == a + (b' + c);
  }

  lemma {:induction false} BagUpdate<V>(t: Table<V>, i: nat, c: Chain<V>)
    requires i < |t|
    ensures Bag(t[i := c]) + multiset(t[i]) == Bag(t) + multiset(c)
    ensures Used(t[i := c]) + |t[i]| == Used(t) + |c|
    ensures Full(t[i := c]) + (if t[i] != [] then 1 else 0) == Full(t) + if c != [] then 1 else 0
  {
    if i == 0 {
      assert t[0 := c][1..] == t[1..];
    } else {
      assert t[i := c][1..] == t[1..][i - 1 := c] && t[i := c][0] == t[0] && t[1..][i - 1] == t[i];
      BagUpdate(t[1..], i - 1, c);
      var rest := t[1..][i - 1 := c];
      assert Bag(t[i := c]) == multiset(t[0]) + Bag(rest);
      SumsMatch(multiset(t[0]), Bag(rest), multiset(t[i]), Bag(t[1..]), multiset(c));
    }
  }

  lemma {:induction false} BagHas<V>(t: Table<V>, e: Entry<V>)
    ensures e in Bag(t) <==> exists i :: 0 <= i < |t| && e in t[i]
  {
    if t != [] {
      BagHas(t[1..], e);
      if e in Bag(t[1..]) {
        var i :| 0 <= i < |t[1..]| && e in t[1..][i];
        assert e in t[i + 1];
      }
      if i :| 0 <= i < |t| && e in t[i] {
        if i > 0 { assert e in t[1..][i - 1]; }
      }
    }
  }

  lemma {:induction false} UsedIsBag<V>(t: Table<V>)
    ensures |Bag(t)| == Used(t) && Full(t) <= Used(t) && Full(t) <= |t|
    ensures Used(t) == 0 <==> forall i :: 0 <= i < |t| ==> t[i] == []
  {
    if t != [] {
      UsedIsBag(t[1..]);
      assert forall i :: 0 < i < |t| ==> t[i] == t[1..][i - 1];
    }
  }

  function Buckets<V>(n: nat): (t: Table<V>)
    ensures |t| == n && forall i :: 0 <= i < n ==> t[i] == []
  {
    seq(n, _ => [])
  }

  lemma {:induction false} BucketsEmpty<V>(t: Table<V>)
    requires forall i :: 0 <= i < |t| ==> t[i] == []
    ensures Bag(t) == multiset{} && Used(t) == 0 && Full(t) == 0
  {
    if t != [] { BucketsEmpty(t[1..]); }
  }

  lemma Push<V>(t: Table<V>, h: nat, e: Entry<V>)
    requires h < |t|
    ensures Bag(t[h := [e] + t[h]]) == Bag(t) + multiset{e} && Used(t[h := [e] + t[h]]) == Used(t) + 1
  {
    BagUpdate(t, h, [e] + t[h]);
    assert multiset([e] + t[h]) == multiset{e} + multiset(t[h]);
    Cancel(Bag(t[h := [e] + t[h]]), Bag(t) + multiset{e}, multiset(t[h]));
  }

  lemma Cancel<T>(a: multiset<T>, b: multiset<T>, c: multiset<T>)
    requires a + c == b + c
    ensures a == b
  {
    assert a == (a + c) - c;
    assert b == (b + c) - c;
  }
}
